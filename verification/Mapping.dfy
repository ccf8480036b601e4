/** Mapping a block of physical memory (allocator.rs, `MemoryBlock::map` and `MemoryBlock::map_efficient`). */
module Mapping {
  import opened Memory
  import opened Allocators
  import opened Paging
  import opened PagingSteps
  import opened PagerEffects
  import opened Rights
  import opened Plans
  import opened RegionEffects
  import opened Pagers

  // ----- small pages

  ghost function SmallPlan(vaddr: nat, n: nat): seq<PageStep> {
    seq(n, i requires 0 <= i < n => Small(Translate(vaddr + i * 0x1000)))
  }

  /** Why mapping small pages can stop. */
  function Failure(vaddr: nat, base: nat, flags: Flags): MemoryResult {
    if vaddr % PAGE != 0 || base % PAGE != 0 then InvalidAddress
    else if Rejected(flags.(pat := false)) then InvalidFlags
    else Nospace
  }

  /** The loop over small pages. `done` pages were mapped when it stopped. */
  method MapPages(pager: Pager, a: Allocator, vaddr: nat, base: nat, n: nat, flags: Flags)
    returns (r: Option<MemoryResult>, ghost done: nat)
    requires pager.Uses(a) && n <= SPACE_PAGES
    requires Mappable(vaddr, base, flags) ==> pager.Affords(SmallPlan(vaddr, n), a)
    modifies pager`tables, pager.memory, a`current, a.bitmap
    ensures pager.Uses(a) && done <= n
    ensures RegionEffect(old(pager.Now(a)), pager.Now(a), pager.cr3,
                         Region(VirtualPage(vaddr), done, base / PAGE, flags.present, 0, 0))
    ensures RegionLeaves(old(pager.Now(a)), pager.Now(a),
                         Region(VirtualPage(vaddr), done, base / PAGE, flags.present, 0, 0), flags)
    ensures r.None? <==> n == 0 || (Mappable(vaddr, base, flags)
                                    && Enough(old(pager.tables.Keys), old(a.FreeFrames()), SmallPlan(vaddr, n)))
    ensures r.None? ==> done == n && pager.TakenAll(old(pager.tables.Keys), old(a.Stock()), SmallPlan(vaddr, n), a)
    ensures r.Some? ==> r.value == Failure(vaddr, base, flags)
    ensures done > 0 ==> Mappable(vaddr, base, flags)
  {
    hide pager.Uses, RegionEffect, Mapped, Prepared, Used, Unused, FrameRange, Translate, VirtualPage, Tree, Mappable,
         Rejected, Missing, Cost, After, Enough, AfterAll, CostAll, SmallPlan,
         RegionLeaves, Leaves4Kb, Untouched, Allowed, Upper;
    ghost var s0, t, was := pager.Now(a), pager.tables.Keys, a.Stock();
    ghost var region := Region(VirtualPage(vaddr), 0, base / PAGE, flags.present, 0, 0);
    ghost var plan := SmallPlan(vaddr, n);
    SmallPlanIs(vaddr, n);
    done := 0;
    StartRegion(pager, a, region, flags);
    pager.NothingTaken(a, plan);
    for i := 0 to n
      invariant done == i && pager.Uses(a) && (i > 0 ==> Mappable(vaddr, base, flags))
      invariant RegionEffect(s0, pager.Now(a), pager.cr3, region.(pages := i))
      invariant RegionLeaves(s0, pager.Now(a), region.(pages := i), flags)
      invariant pager.TakenAll(t, was, plan[..i], a) && Enough(t, was.free, plan[..i])
    {
      ghost var s1, now := pager.Now(a), a.Stock();
      SamePageFacts(vaddr, base, i, flags);
      if Mappable(vaddr, base, flags) { pager.PlanGoesOn(a, t, was, plan, i); }
      var p := pager.Page4Kb(vaddr + i * 0x1000, base + i * 0x1000, flags, a);
      if p.Err? {
        RegionAttempt(s0, s1, pager.Now(a), pager.cr3, region.(pages := i));
        LeavesAttempt(s0, s1, pager.Now(a), region.(pages := i), flags);
        return Some(p.error), done;
      }
      StepAddress(vaddr, base, i);
      RegionPage(s0, s1, pager.Now(a), pager.cr3, region.(pages := i), Translate(vaddr + i * 0x1000));
      LeavesPage(s0, s1, pager.Now(a), region.(pages := i), Translate(vaddr + i * 0x1000), flags);
      pager.PlanTaken(a, t, was, plan, i, now);
      done := done + 1;
    }
    assert plan[..n] == plan;
    return None, done;
  }

  lemma SmallPlanIs(vaddr: nat, n: nat)
    ensures |SmallPlan(vaddr, n)| == n
    ensures forall i :: 0 <= i < n ==> SmallPlan(vaddr, n)[i] == Small(Translate(vaddr + i * 0x1000))
  {
  }

  /** Page `i` of a block is accepted or refused like the first. */
  lemma SamePageFacts(vaddr: nat, base: nat, i: nat, flags: Flags)
    ensures Mappable(vaddr + i * 0x1000, base + i * 0x1000, flags) <==> Mappable(vaddr, base, flags)
    ensures (vaddr + i * 0x1000) % PAGE == vaddr % PAGE && (base + i * 0x1000) % PAGE == base % PAGE
    ensures Failure(vaddr + i * 0x1000, base + i * 0x1000, flags) == Failure(vaddr, base, flags)
    ensures Failure(vaddr, base, flags) == Nospace <==> Mappable(vaddr, base, flags)
    ensures Mappable(vaddr, base, flags) ==> base % PAGE == 0
  {
    hide Rejected;
    PagesAbove(vaddr, i);
    PagesAbove(base, i);
  }

  lemma PagesAbove(base: nat, k: nat)
    ensures (base + k * 0x1000) % PAGE == base % PAGE
  {
    assert (base + k * 0x1000) / PAGE == base / PAGE + k;
  }

  lemma StepAddress(vaddr: nat, base: nat, i: nat)
    requires i < SPACE_PAGES
    ensures Offset(Translate(vaddr + i * 0x1000), VirtualPage(vaddr)) == i
    ensures (base + i * 0x1000) / PAGE == base / PAGE + i
  {
    hide Translate, Offset;
    OffsetOfTranslate(vaddr, i);
  }

  lemma StartRegion(pager: Pager, a: Allocator, r: Region, flags: Flags)
    requires pager.Uses(a) && r.pages == r.lo == r.hi == 0
    ensures a.Ready() && RegionEffect(pager.Now(a), pager.Now(a), pager.cr3, r)
    ensures RegionLeaves(pager.Now(a), pager.Now(a), r, flags)
  {
    LeavesEmpty(pager.Now(a), r, flags);
    RegionEmpty(pager.Now(a), pager.cr3, r);
  }

  method Map(block: MemoryBlock, pager: Pager, a: Allocator, vaddr: nat, flags: Flags)
    returns (r: Option<MemoryResult>, ghost done: nat)
    requires pager.Uses(a) && block.length / PAGE <= SPACE_PAGES
    requires Mappable(vaddr, block.base, flags) ==> pager.Affords(SmallPlan(vaddr, block.length / PAGE), a)
    modifies pager`tables, pager.memory, a`current, a.bitmap
    ensures pager.Uses(a) && done <= block.length / PAGE
    ensures RegionEffect(old(pager.Now(a)), pager.Now(a), pager.cr3,
                         Region(VirtualPage(vaddr), done, block.base / PAGE, flags.present, 0, 0))
    ensures RegionLeaves(old(pager.Now(a)), pager.Now(a),
                         Region(VirtualPage(vaddr), done, block.base / PAGE, flags.present, 0, 0), flags)
    ensures var plan := SmallPlan(vaddr, block.length / PAGE);
            && (r.None? <==> plan == [] || (Mappable(vaddr, block.base, flags)
                                            && Enough(old(pager.tables.Keys), old(a.FreeFrames()), plan)))
            && (r.None? ==> done == |plan| && pager.TakenAll(old(pager.tables.Keys), old(a.Stock()), plan, a))
    ensures r.Some? ==> r.value == Failure(vaddr, block.base, flags)
  {
    hide RegionEffect, RegionLeaves, Mappable, Translate, Enough;
    r, done := MapPages(pager, a, vaddr, block.base, block.length / 0x1000, flags);
  }

  // ----- 2 MiB pages

  ghost function LargePlan(vaddr: nat, n: nat): seq<PageStep> {
    seq(n, i requires 0 <= i < n => Large(Translate(vaddr + i * PAGER_2MIB)))
  }

  lemma LargePlanIs(vaddr: nat, n: nat)
    ensures |LargePlan(vaddr, n)| == n
    ensures forall i :: 0 <= i < n ==> LargePlan(vaddr, n)[i] == Large(Translate(vaddr + i * PAGER_2MIB))
  {
  }

  function HugeFailure(vaddr: nat, flags: Flags): MemoryResult {
    if vaddr % 0x10_0000 != 0 then InvalidAddress else if Rejected(flags) then InvalidFlags else Nospace
  }

  /** The 2 MiB pages of a plan, as far as they are still there, carry the bit that was stored with them. */
  ghost predicate MarksAre(t: set<Pos>, s: Space, plan: seq<PageStep>, flags: Flags) {
    forall j :: 0 <= j < |plan| && plan[j].Large? && HugeAt(s.mem, s.tables, plan[j].at) ==>
      MarkedAt(s.mem, s.tables, plan[j].at) == StoredMark(AfterAll(t, plan[..j]), plan[j].at, flags)
  }

  /** The loop over 2 MiB pages. */
  method MapHugePages(pager: Pager, a: Allocator, vaddr: nat, base: nat, n: nat, flags: Flags)
    returns (r: Option<MemoryResult>, ghost done: nat)
    requires pager.Uses(a) && 512 * n <= SPACE_PAGES
    requires n > 0 ==> base % PAGER_2MIB == 0 && vaddr % PAGER_2MIB != 0x10_0000
    requires n > 0 && HugeFailure(vaddr, flags) == Nospace ==>
               && NoHugeIn(pager.memory.frames, pager.tables, VirtualPage(vaddr), 512 * n)
               && pager.Affords(LargePlan(vaddr, n), a)
    modifies pager`tables, pager.memory, a`current, a.bitmap
    ensures pager.Uses(a) && done <= n
    ensures RegionEffect(old(pager.Now(a)), pager.Now(a), pager.cr3,
                         Region(VirtualPage(vaddr), 512 * done, base / PAGE, flags.present, 0, 512 * done))
    ensures RegionLeaves(old(pager.Now(a)), pager.Now(a),
                         Region(VirtualPage(vaddr), 512 * done, base / PAGE, flags.present, 0, 512 * done), flags)
    ensures r.None? <==> n == 0 || (HugeFailure(vaddr, flags) == Nospace
                                    && Enough(old(pager.tables.Keys), old(a.FreeFrames()), LargePlan(vaddr, n)))
    ensures r.None? ==> && done == n && pager.TakenAll(old(pager.tables.Keys), old(a.Stock()), LargePlan(vaddr, n), a)
                        && MarksAre(old(pager.tables.Keys), pager.Now(a), LargePlan(vaddr, n), flags)
    ensures r.Some? ==> r.value == HugeFailure(vaddr, flags)
    ensures done > 0 ==> HugeFailure(vaddr, flags) == Nospace
  {
    hide pager.Uses, RegionEffect, MappedHuge, Prepared, Used, Unused, FrameRange, Translate,
         VirtualPage, Tree, HugeAt, Rejected, Offset, NoHugeIn, Slot, TablePos, Missing,
         Cost, After, Enough, AfterAll, CostAll, LargePlan, MarksAre, Stores2Mb, StoredMark,
         RegionLeaves, Leaves2Mb, Untouched, Allowed, Upper;
    ghost var s0, t, was := pager.Now(a), pager.tables.Keys, a.Stock();
    ghost var region := Region(VirtualPage(vaddr), 0, base / PAGE, flags.present, 0, 0);
    ghost var plan := LargePlan(vaddr, n);
    LargePlanIs(vaddr, n);
    done := 0;
    StartRegion(pager, a, region, flags);
    pager.NothingTaken(a, plan);
    NoMarks(t, s0, plan, flags);
    for i := 0 to n
      invariant done == i && pager.Uses(a) && (i > 0 ==> HugeFailure(vaddr, flags) == Nospace)
      invariant RegionEffect(s0, pager.Now(a), pager.cr3, region.(pages := 512 * i, hi := 512 * i))
      invariant RegionLeaves(s0, pager.Now(a), region.(pages := 512 * i, hi := 512 * i), flags)
      invariant pager.TakenAll(t, was, plan[..i], a) && Enough(t, was.free, plan[..i])
      invariant MarksAre(t, pager.Now(a), plan[..i], flags)
    {
      ghost var s1, now, at := pager.Now(a), a.Stock(), Translate(vaddr + i * PAGER_2MIB);
      SameHugeFacts(vaddr, base, i, flags);
      if HugeFailure(vaddr, flags) == Nospace {
        pager.PlanGoesOn(a, t, was, plan, i);
        StepHuge(vaddr, base, i);
        StillFree(s0, s1, pager.cr3, region.(pages := 512 * i, hi := 512 * i), n, at);
      }
      var p := pager.Page2Mb(vaddr + i * PAGER_2MIB, base + i * PAGER_2MIB, flags, a);
      if p.Err? {
        RegionAttempt(s0, s1, pager.Now(a), pager.cr3, region.(pages := 512 * i, hi := 512 * i));
        LeavesAttempt(s0, s1, pager.Now(a), region.(pages := 512 * i, hi := 512 * i), flags);
        return Some(p.error), done;
      }
      ghost var mark := StoredMark(s1.tables.Keys, at, flags);
      RegionHuge(s0, s1, pager.Now(a), pager.cr3, region.(pages := 512 * i, hi := 512 * i), at, mark);
      HugeLeaves(s0, s1, pager.Now(a), region.(pages := 512 * i, hi := 512 * i), at, flags);
      pager.PlanTaken(a, t, was, plan, i, now);
      OneMoreMark(t, s1, pager.Now(a), pager.cr3, vaddr, n, i, base / PAGE + 512 * i, flags);
      done := done + 1;
    }
    assert plan[..n] == plan;
    return None, done;
  }

  lemma HugeLeaves(s0: Space, s1: Space, s2: Space, r: Region, at: Address, flags: Flags)
    requires RegionLeaves(s0, s1, r, flags) && r.lo <= r.hi == r.pages && r.pages + 512 <= SPACE_PAGES
    requires Offset(at, r.first) == r.pages && at.page == 0
    requires Leaves2Mb(s1, s2, at, r.frame + r.pages, flags)
    ensures RegionLeaves(s0, s2, r.(pages := r.pages + 512, hi := r.pages + 512), flags)
  {
    hide RegionLeaves, LeavesSet, Granted, StoredMark, Offset, UpperKept;
    var mark := StoredMark(s1.tables.Keys, at, flags);
    LeavesHuge(s0, s1, s2, r, at, Entry(r.frame + r.pages, flags.(size := true, stab := mark)), flags);
  }

  lemma NoMarks(t: set<Pos>, s: Space, plan: seq<PageStep>, flags: Flags)
    ensures MarksAre(t, s, plan[..0], flags)
  {
  }

  /** The slots of a block are different, so a 2 MiB page stored into one leaves the marks of the others alone. */
  lemma OneMoreMark(t: set<Pos>, s1: Space, s2: Space, root: nat, vaddr: nat, n: nat, i: nat, frame: nat, flags: Flags)
    requires i < n && 512 * n <= SPACE_PAGES && vaddr % PAGER_2MIB == 0
    requires |LargePlan(vaddr, n)| == n && MarksAre(t, s1, LargePlan(vaddr, n)[..i], flags)
    requires var at := Translate(vaddr + i * PAGER_2MIB);
             MappedHuge(s1, s2, root, at, frame, flags.present, StoredMark(s1.tables.Keys, at, flags))
    requires s1.tables.Keys == AfterAll(t, LargePlan(vaddr, n)[..i])
    ensures MarksAre(t, s2, LargePlan(vaddr, n)[..i + 1], flags)
  {
    hide HugeAt, MarkedAt, StoredMark, AfterAll, Kept, SlotUpdate, Translate, InSlot, Offset, LargePlan;
    LargePlanIs(vaddr, n);
    var plan, at := LargePlan(vaddr, n), Translate(vaddr + i * PAGER_2MIB);
    SlotAt(vaddr, i);
    forall j | 0 <= j < i + 1 && HugeAt(s2.mem, s2.tables, plan[j].at)
      ensures MarkedAt(s2.mem, s2.tables, plan[j].at) == StoredMark(AfterAll(t, plan[..i + 1][..j]), plan[j].at, flags)
    {
      assert plan[..i + 1][..j] == plan[..j] && plan[..i][..j] == plan[..j];
      SlotAt(vaddr, j);
      SameSlotPages(at, plan[j].at, VirtualPage(vaddr), 512 * i);
      assert HugeAfter(s1, s2, at, StoredMark(s1.tables.Keys, at, flags), plan[j].at);
      if j < i { assert plan[..i][j] == plan[j]; }
    }
  }

  lemma SlotAt(vaddr: nat, i: nat)
    requires 512 * i < SPACE_PAGES && vaddr % PAGER_2MIB == 0
    ensures var at := Translate(vaddr + i * PAGER_2MIB); at.page == 0 && Offset(at, VirtualPage(vaddr)) == 512 * i
  {
    hide Offset;
    OffsetOfTranslate(vaddr, 512 * i);
    HugeMultiple(vaddr, i);
    FirstOfSlot(vaddr + i * PAGER_2MIB);
    SameDistance(vaddr, i);
  }

  lemma MultipleOf2Mb(q: nat)
    ensures (q * PAGER_2MIB) % PAGER_2MIB == 0
  {
  }

  lemma MultipleOf1Mb(q: nat)
    ensures (q * 0x10_0000) % 0x10_0000 == 0
  {
  }

  lemma HugeMultiple(x: nat, i: nat)
    requires x % PAGER_2MIB == 0
    ensures (x + i * PAGER_2MIB) % PAGER_2MIB == 0
    ensures (x + i * PAGER_2MIB) % 0x10_0000 == 0
  {
    var q := x / PAGER_2MIB + i;
    MultipleOf2Mb(q);
    MultipleOf1Mb(2 * q);
    assert x + i * PAGER_2MIB == q * PAGER_2MIB;
    assert x + i * PAGER_2MIB == 2 * q * 0x10_0000;
  }

  /** A 2 MiB page of a block is accepted or refused like the first. */
  lemma SameHugeFacts(vaddr: nat, base: nat, i: nat, flags: Flags)
    requires base % PAGER_2MIB == 0 && vaddr % PAGER_2MIB != 0x10_0000
    ensures (base + i * PAGER_2MIB) % PAGER_2MIB == 0 && (base + i * PAGER_2MIB) % 0x10_0000 == 0
    ensures (vaddr + i * PAGER_2MIB) % 0x10_0000 == vaddr % 0x10_0000
    ensures HugeFailure(vaddr, flags) == Nospace ==> vaddr % PAGER_2MIB == 0
  {
    hide Rejected;
    HugeMultiple(base, i);
    MegaMultiple(vaddr, 2 * i);
    assert i * PAGER_2MIB == 2 * i * 0x10_0000;
    HalfOfTwoMb(vaddr / 0x10_0000 / 2, vaddr / 0x10_0000 % 2);
  }

  lemma MegaMultiple(x: nat, k: nat)
    ensures (x + k * 0x10_0000) % 0x10_0000 == x % 0x10_0000
  {
    assert (x + k * 0x10_0000) / 0x10_0000 == x / 0x10_0000 + k;
  }

  lemma StepHuge(vaddr: nat, base: nat, i: nat)
    requires 512 * i < SPACE_PAGES
    requires vaddr % PAGER_2MIB == 0 && base % PAGER_2MIB == 0
    ensures var at := Translate(vaddr + i * PAGER_2MIB);
            at.page == 0 && Offset(at, VirtualPage(vaddr)) == 512 * i
    ensures (base + i * PAGER_2MIB) / PAGE == base / PAGE + 512 * i
  {
    SlotAt(vaddr, i);
    FrameStep(base, 512 * i);
    SameDistance(base, i);
  }

  lemma SameDistance(x: nat, i: nat)
    ensures x + i * PAGER_2MIB == x + 512 * i * 0x1000
  {
  }

  lemma FrameStep(base: nat, k: nat)
    ensures (base + k * 0x1000) / PAGE == base / PAGE + k
  {
  }

  lemma FirstOfSlot(virt: nat)
    requires virt % PAGER_2MIB == 0
    ensures Translate(virt).page == 0
  {
    FrameAligned(virt);
  }

  lemma StillFree(s0: Space, s1: Space, root: nat, r: Region, n: nat, at: Address)
    requires RegionEffect(s0, s1, root, r) && r.hi == r.pages && Offset(at, r.first) == r.pages < 512 * n
    requires NoHugeIn(s0.mem, s0.tables, r.first, 512 * n)
    ensures !HugeAt(s1.mem, s1.tables, at)
  {
    hide HugeAt, Offset;
    assert SameHugeAt(s0, s1, r, at);
  }

  lemma MarksKept(t: set<Pos>, s1: Space, s2: Space, root: nat, r: Region, plan: seq<PageStep>, flags: Flags)
    requires MarksAre(t, s1, plan, flags) && RegionEffect(s1, s2, root, r) && r.lo >= r.hi
    ensures MarksAre(t, s2, plan, flags)
  {
    hide HugeAt, MarkedAt, StoredMark, AfterAll, Kept, Offset;
    forall j | 0 <= j < |plan| && plan[j].Large? && HugeAt(s2.mem, s2.tables, plan[j].at)
      ensures MarkedAt(s2.mem, s2.tables, plan[j].at) == StoredMark(AfterAll(t, plan[..j]), plan[j].at, flags)
    {
      assert SameHugeAt(s1, s2, r, plan[j].at);
    }
  }

  /** Small pages behind 2 MiB pages carry no marks of their own. */
  lemma MarksBefore(t: set<Pos>, s: Space, xs: seq<PageStep>, ys: seq<PageStep>, flags: Flags)
    requires MarksAre(t, s, xs, flags) && forall i :: 0 <= i < |ys| ==> ys[i].Small?
    ensures MarksAre(t, s, xs + ys, flags)
  {
    hide HugeAt, MarkedAt, StoredMark, AfterAll;
    var plan := xs + ys;
    forall j | 0 <= j < |plan| && plan[j].Large? && HugeAt(s.mem, s.tables, plan[j].at)
      ensures MarkedAt(s.mem, s.tables, plan[j].at) == StoredMark(AfterAll(t, plan[..j]), plan[j].at, flags)
    {
      assert plan[j] == xs[j] && plan[..j] == xs[..j];
    }
  }

  /** Neither do small pages before them. */
  lemma MarksBehind(t: set<Pos>, s: Space, xs: seq<PageStep>, ys: seq<PageStep>, flags: Flags)
    requires MarksAre(AfterAll(t, xs), s, ys, flags) && forall i :: 0 <= i < |xs| ==> xs[i].Small?
    ensures MarksAre(t, s, xs + ys, flags)
  {
    hide HugeAt, MarkedAt, StoredMark, AfterAll, CostAll, Enough;
    var plan := xs + ys;
    forall j | 0 <= j < |plan| && plan[j].Large? && HugeAt(s.mem, s.tables, plan[j].at)
      ensures MarkedAt(s.mem, s.tables, plan[j].at) == StoredMark(AfterAll(t, plan[..j]), plan[j].at, flags)
    {
      var k := j - |xs|;
      assert plan[j] == ys[k] && plan[..j] == xs + ys[..k];
      PlanConcat(t, 0, xs, ys[..k]);
    }
  }

  // ----- small pages up to a 2 MiB boundary, then 2 MiB pages, then small pages again

  /** The pages up to the next 2 MiB boundary: a whole 2 MiB when the block starts on one. */
  function HeadPages(base: nat): nat { 512 - base % PAGER_2MIB / 0x1000 }

  function PagesOf(length: nat): nat { if length % 0x1000 != 0 then length / 0x1000 + 1 else length / 0x1000 }

  function HugePages(base: nat, n: nat): nat { if HeadPages(base) > n then 0 else (n - HeadPages(base)) / 512 }

  /** The small pages behind the 2 MiB pages. */
  function TailPages(base: nat, n: nat): nat
    requires HeadPages(base) <= n
  {
    (n - HeadPages(base)) % 512
  }

  ghost function AlignedPlan(vaddr: nat, huge: nat, rem: nat): seq<PageStep> {
    LargePlan(vaddr, huge) + SmallPlan(vaddr + huge * PAGER_2MIB, rem)
  }

  /** `page_2_mb` refuses the pages of the middle. */
  predicate AlignedRefused(vaddr: nat, huge: nat, flags: Flags) {
    huge > 0 && HugeFailure(vaddr, flags) != Nospace
  }

  function Min(x: nat, y: nat): nat { if x <= y then x else y }

  function TailRegion(vaddr: nat, base: nat, huge: nat, more: nat, present: bool): Region {
    Region(VirtualPage(vaddr + huge * PAGER_2MIB), more, (base + huge * PAGER_2MIB) / PAGE, present, 0, 0)
  }

  /** 2 MiB pages with small ones behind them. */
  lemma JoinTail(s0: Space, s1: Space, s2: Space, root: nat, vaddr: nat, base: nat, huge: nat, more: nat,
                 flags: Flags)
    requires 512 * huge + more <= SPACE_PAGES
    requires var r := Region(VirtualPage(vaddr), 512 * huge, base / PAGE, flags.present, 0, 512 * huge);
             RegionEffect(s0, s1, root, r) && RegionLeaves(s0, s1, r, flags)
    requires RegionEffect(s1, s2, root, TailRegion(vaddr, base, huge, more, flags.present))
    requires RegionLeaves(s1, s2, TailRegion(vaddr, base, huge, more, flags.present), flags)
    ensures var r := Region(VirtualPage(vaddr), 512 * huge + more, base / PAGE, flags.present, 0, 512 * huge);
            RegionEffect(s0, s2, root, r) && RegionLeaves(s0, s2, r, flags)
  {
    hide RegionEffect, RegionLeaves, VirtualPage;
    SameDistance(vaddr, huge);
    SameDistance(base, huge);
    VirtualPageStep(vaddr, 512 * huge);
    FrameStep(base, 512 * huge);
    var r1 := Region(VirtualPage(vaddr), 512 * huge, base / PAGE, flags.present, 0, 512 * huge);
    var r2, r := TailRegion(vaddr, base, huge, more, flags.present), r1.(pages := 512 * huge + more);
    RegionJoin(s0, s1, s2, root, r1, r2, r);
    LeavesJoin(s0, s1, s2, r1, r2, r, flags);
  }

  /** From a 2 MiB boundary on: 2 MiB pages, then small pages for the rest. */
  method MapAligned(pager: Pager, a: Allocator, vaddr: nat, base: nat, huge: nat, rem: nat, flags: Flags)
    returns (r: Option<MemoryResult>, ghost done: nat)
    requires pager.Uses(a) && 512 * huge + rem <= SPACE_PAGES && base % PAGER_2MIB == 0 && Mappable(vaddr, base, flags)
    requires huge > 0 ==> vaddr % PAGER_2MIB != 0x10_0000
    requires !AlignedRefused(vaddr, huge, flags) ==>
               && NoHugeIn(pager.memory.frames, pager.tables, VirtualPage(vaddr), 512 * huge)
               && pager.Affords(AlignedPlan(vaddr, huge, rem), a)
    modifies pager`tables, pager.memory, a`current, a.bitmap
    ensures pager.Uses(a) && done <= 512 * huge + rem
    ensures RegionEffect(old(pager.Now(a)), pager.Now(a), pager.cr3,
                         Region(VirtualPage(vaddr), done, base / PAGE, flags.present, 0, Min(512 * huge, done)))
    ensures RegionLeaves(old(pager.Now(a)), pager.Now(a),
                         Region(VirtualPage(vaddr), done, base / PAGE, flags.present, 0, Min(512 * huge, done)), flags)
    ensures r.None? <==> !AlignedRefused(vaddr, huge, flags)
                         && Enough(old(pager.tables.Keys), old(a.FreeFrames()), AlignedPlan(vaddr, huge, rem))
    ensures r.None? ==> && done == 512 * huge + rem
                        && pager.TakenAll(old(pager.tables.Keys), old(a.Stock()), AlignedPlan(vaddr, huge, rem), a)
                        && MarksAre(old(pager.tables.Keys), pager.Now(a), AlignedPlan(vaddr, huge, rem), flags)
    ensures r.Some? ==> if AlignedRefused(vaddr, huge, flags) then r.value == HugeFailure(vaddr, flags) && done == 0
                        else r.value == Nospace
  {
    hide pager.Uses, RegionEffect, RegionLeaves, Used, Unused, FrameRange, VirtualPage, Tree, NoHugeIn, Mappable,
         HugeFailure, Failure, Enough, AfterAll, CostAll, SmallPlan, LargePlan, MarksAre;
    ghost var s0, t, was := pager.Now(a), pager.tables.Keys, a.Stock();
    ghost var large, small := LargePlan(vaddr, huge), SmallPlan(vaddr + huge * PAGER_2MIB, rem);
    pager.PartsOfPlan(a, large, small);
    SmallPlanIs(vaddr + huge * PAGER_2MIB, rem);
    LargePlanIs(vaddr, huge);
    EmptyPlan(t, was.free);
    ghost var more;
    r, more := MapHugePages(pager, a, vaddr, base, huge, flags);
    done := 512 * more;
    if r.Some? {
      return;
    }
    ghost var s1, now := pager.Now(a), a.Stock();
    EmptyPlan(pager.tables.Keys, a.FreeFrames());
    pager.RestOfPlan(a, t, was, large, small);
    SameDistance(vaddr, huge);
    SameDistance(base, huge);
    SamePageFacts(vaddr, base, done, flags);
    r, more := MapPages(pager, a, vaddr + huge * PAGER_2MIB, base + huge * PAGER_2MIB, rem, flags);
    if r.None? { pager.PlanDone(a, t, was, large, s1.tables.Keys, now, small); }
    JoinTail(s0, s1, pager.Now(a), pager.cr3, vaddr, base, huge, more, flags);
    MarksKept(t, s1, pager.Now(a), pager.cr3, TailRegion(vaddr, base, huge, more, flags.present), large, flags);
    MarksBefore(t, pager.Now(a), large, small, flags);
    done := done + more;
  }

  ghost function EfficientPlan(vaddr: nat, base: nat, pages: nat): seq<PageStep> {
    var head := HeadPages(base);
    if head > pages then SmallPlan(vaddr, pages)
    else SmallPlan(vaddr, head) + AlignedPlan(vaddr + head * 0x1000, HugePages(base, pages), TailPages(base, pages))
  }

  /** `page_2_mb` refuses the pages of the middle, if there are any. */
  predicate MiddleRefused(vaddr: nat, base: nat, pages: nat, flags: Flags) {
    AlignedRefused(vaddr + HeadPages(base) * 0x1000, HugePages(base, pages), flags)
  }

  /** What is tried: when the middle is going to be refused, only the pages before it. */
  ghost function Attempted(vaddr: nat, base: nat, pages: nat, flags: Flags): seq<PageStep> {
    if MiddleRefused(vaddr, base, pages, flags) then SmallPlan(vaddr, HeadPages(base))
      else EfficientPlan(vaddr, base, pages)
  }

  /** The region that is mapped once `done` pages are. */
  function EfficientRegion(vaddr: nat, base: nat, pages: nat, present: bool, done: nat): Region {
    var head := HeadPages(base);
    Region(VirtualPage(vaddr), done, base / PAGE, present,
      Min(head, done), Min(head + 512 * HugePages(base, pages), done))
  }

  /** The source only checks the alignment of the middle to 1 MiB; a virtual address half-way between two boundaries is
      left out here (`HalfwayIsOff`), and so are middles in which there are 2 MiB pages already. */
  ghost predicate MiddleFits(pager: Pager, vaddr: nat, base: nat, pages: nat, flags: Flags)
    reads pager, pager.memory
  {
    var head := HeadPages(base);
    HugePages(base, pages) > 0 ==>
      && (vaddr + head * 0x1000) % PAGER_2MIB != 0x10_0000
      && (MiddleRefused(vaddr, base, pages, flags)
          || NoHugeIn(pager.memory.frames, pager.tables, VirtualPage(vaddr + head * 0x1000),
            512 * HugePages(base, pages)))
  }

  /** The PAT flag is cleared for small pages only, so any middle is refused with it. */
  lemma PatRefuses(vaddr: nat, base: nat, pages: nat, flags: Flags)
    ensures flags.pat && HugePages(base, pages) > 0 ==> MiddleRefused(vaddr, base, pages, flags)
  {
  }

  /** When the small pages of a block are accepted, its middle is refused exactly for the PAT flag, or when the virtual
      and the physical address differ by something that is not a multiple of 1 MiB. */
  lemma RefusedExactly(vaddr: nat, base: nat, pages: nat, flags: Flags)
    requires Mappable(vaddr, base, flags) && HugePages(base, pages) > 0
    ensures MiddleRefused(vaddr, base, pages, flags) <==> flags.pat || vaddr % 0x10_0000 != base % 0x10_0000
  {
    var head := HeadPages(base);
    Boundary(base);
    HugeMultiple(base + head * 0x1000, 0);
    var x, y := vaddr + head * 0x1000, base + head * 0x1000;
    assert x % 0x10_0000 == 0 <==> vaddr % 0x10_0000 == base % 0x10_0000 by {
      SameResidue(vaddr, base, head * 0x1000);
    }
  }

  lemma SameResidue(x: nat, y: nat, k: nat)
    requires (y + k) % 0x10_0000 == 0
    ensures (x + k) % 0x10_0000 == 0 <==> x % 0x10_0000 == y % 0x10_0000
  {
  }

  lemma Boundary(base: nat)
    requires base % PAGE == 0
    ensures (base + HeadPages(base) * 0x1000) % PAGER_2MIB == 0
  {
    assert base % PAGER_2MIB == base % PAGER_2MIB / 0x1000 * 0x1000;
    assert base + HeadPages(base) * 0x1000 == base / PAGER_2MIB * PAGER_2MIB + PAGER_2MIB;
  }

  /** At a virtual address half-way between two boundaries, which the source accepts, `page_2_mb` stores the page for
      the slot the address lies in: the address itself then translates to a frame 1 MiB further up. */
  lemma HalfwayIsOff(s0: Space, s1: Space, root: nat, virt: nat, frame: nat, flags: Flags)
    requires virt % PAGER_2MIB == 0x10_0000 && frame % 512 == 0
    requires Stores2Mb(s0, s1, root, Translate(virt), frame, flags) && !HugeAt(s0.mem, s0.tables, Translate(virt))
    requires flags.present && UpperOpen(s0.mem, root, Translate(virt))
    ensures Walk(s1.mem, root, Translate(virt)) == Some(frame + 256)
  {
    hide Walk, UpperOpen, HugeAt, Slot, StoredMark;
    assert virt % 0x10_0000 == 0 by { MegaMultiple(0, 2 * (virt / PAGER_2MIB) + 1); }
    FrameAlignment(virt);
    assert Translate(virt).page == 256;
  }

  lemma MiddleFree(s0: Space, s1: Space, root: nat, r: Region, v: PageNumber, n: nat)
    requires RegionEffect(s0, s1, root, r) && r.lo >= r.hi
    ensures NoHugeIn(s0.mem, s0.tables, v, n) ==> NoHugeIn(s1.mem, s1.tables, v, n)
    ensures NoHugeIn(s1.mem, s1.tables, v, 0)
  {
    hide HugeAt, Offset;
    forall a | HugeAt(s1.mem, s1.tables, a) ensures HugeAt(s0.mem, s0.tables, a) {
      assert SameHugeAt(s0, s1, r, a);
    }
  }

  lemma SmallMarks(t: set<Pos>, s: Space, vaddr: nat, n: nat, flags: Flags)
    ensures MarksAre(t, s, SmallPlan(vaddr, n), flags)
  {
  }

  /** The pages before the boundary, with those behind it. */
  lemma JoinHead(s0: Space, s1: Space, s2: Space, root: nat, vaddr: nat,
                 base: nat, pages: nat, more: nat, flags: Flags)
    requires HeadPages(base) + more <= pages <= SPACE_PAGES
    requires RegionEffect(s0, s1, root, Region(VirtualPage(vaddr), HeadPages(base), base / PAGE, flags.present, 0, 0))
    requires var k := HeadPages(base) * 0x1000;
             RegionEffect(s1, s2, root, Region(VirtualPage(vaddr + k), more, (base + k) / PAGE, flags.present, 0,
                                               Min(512 * HugePages(base, pages), more)))
    requires RegionLeaves(s0, s1, Region(VirtualPage(vaddr), HeadPages(base), base / PAGE, flags.present, 0, 0), flags)
    requires var k := HeadPages(base) * 0x1000;
             RegionLeaves(s1, s2, Region(VirtualPage(vaddr + k), more, (base + k) / PAGE, flags.present, 0,
                                         Min(512 * HugePages(base, pages), more)), flags)
    ensures var r := EfficientRegion(vaddr, base, pages, flags.present, HeadPages(base) + more);
            RegionEffect(s0, s2, root, r) && RegionLeaves(s0, s2, r, flags)
  {
    hide RegionEffect, RegionLeaves, VirtualPage;
    var head, middle := HeadPages(base), Min(512 * HugePages(base, pages), more);
    VirtualPageStep(vaddr, head);
    FrameStep(base, head);
    var r1 := Region(VirtualPage(vaddr), head, base / PAGE, flags.present, 0, 0);
    var first := r1.(lo := head, hi := head);
    var r2 := Region(VirtualPage(vaddr + head * 0x1000), more, (base + head * 0x1000) / PAGE, flags.present, 0, middle);
    var r := r1.(pages := head + more, lo := head, hi := head + middle);
    RegionUnsplit(s0, s1, root, r1, head);
    LeavesUnsplit(s0, s1, r1, flags, head);
    RegionJoin(s0, s1, s2, root, first, r2, r);
    LeavesJoin(s0, s1, s2, first, r2, r, flags);
  }

  /** A block that ends before the boundary, or of which no page behind it was reached. */
  lemma HeadOnly(s0: Space, s1: Space, root: nat, vaddr: nat, base: nat, pages: nat, done: nat,
                 flags: Flags)
    requires done <= HeadPages(base)
    requires RegionEffect(s0, s1, root, Region(VirtualPage(vaddr), done, base / PAGE, flags.present, 0, 0))
    requires RegionLeaves(s0, s1, Region(VirtualPage(vaddr), done, base / PAGE, flags.present, 0, 0), flags)
    ensures var r := EfficientRegion(vaddr, base, pages, flags.present, done);
            RegionEffect(s0, s1, root, r) && RegionLeaves(s0, s1, r, flags)
  {
    hide RegionEffect, RegionLeaves, VirtualPage;
    RegionUnsplit(s0, s1, root, Region(VirtualPage(vaddr), done, base / PAGE, flags.present, 0, 0), done);
    LeavesUnsplit(s0, s1, Region(VirtualPage(vaddr), done, base / PAGE, flags.present, 0, 0), flags, done);
  }

  /** What `map_efficient` answers, given the tables and the free frames it starts with. */
  ghost predicate EfficientOutcome(r: Option<MemoryResult>, done: nat, t: set<Pos>, free: int,
                                   vaddr: nat, base: nat, pages: nat, flags: Flags)
  {
    && done <= pages
    && (r.None? <==> pages == 0 || (&& Mappable(vaddr, base, flags) && !MiddleRefused(vaddr, base, pages, flags)
                                    && Enough(t, free, EfficientPlan(vaddr, base, pages))))
    && (r.None? ==> done == pages)
    && (MiddleRefused(vaddr, base, pages, flags) ==> done <= HeadPages(base))
    && (r.Some? ==>
          if !Mappable(vaddr, base, flags) then r.value == Failure(vaddr, base, flags) && done == 0
          else if Enough(t, free, Attempted(vaddr, base, pages, flags)) then
            && MiddleRefused(vaddr, base, pages, flags) && done == HeadPages(base)
            && r.value == HugeFailure(vaddr + done * 0x1000, flags)
          else r.value == Nospace)
  }

  lemma DoneIsAligned(r: Option<MemoryResult>, done: nat, t: set<Pos>, free: int,
                      vaddr: nat, base: nat, pages: nat, flags: Flags)
    requires EfficientOutcome(r, done, t, free, vaddr, base, pages, flags)
    ensures done <= pages && (done > 0 ==> vaddr % 0x1000 == 0 && base % 0x1000 == 0)
  {
    hide Enough, EfficientPlan, Attempted, MiddleRefused;
  }

  /** A block that reaches the boundary. */
  method MapSplit(pager: Pager, a: Allocator, vaddr: nat, base: nat, pages: nat, flags: Flags)
    returns (r: Option<MemoryResult>, ghost done: nat)
    requires pager.Uses(a) && HeadPages(base) <= pages <= SPACE_PAGES
    requires Mappable(vaddr, base, flags) ==>
               && MiddleFits(pager, vaddr, base, pages, flags)
               && pager.Affords(Attempted(vaddr, base, pages, flags), a)
    modifies pager`tables, pager.memory, a`current, a.bitmap
    ensures pager.Uses(a) && done <= pages
    ensures RegionEffect(old(pager.Now(a)), pager.Now(a),
        pager.cr3, EfficientRegion(vaddr, base, pages, flags.present, done))
    ensures RegionLeaves(old(pager.Now(a)), pager.Now(a),
                         EfficientRegion(vaddr, base, pages, flags.present, done), flags)
    ensures EfficientOutcome(r, done, old(pager.tables.Keys), old(a.FreeFrames()), vaddr, base, pages, flags)
    ensures r.None? ==> && pager.TakenAll(old(pager.tables.Keys), old(a.Stock()), EfficientPlan(vaddr, base, pages), a)
                        && MarksAre(old(pager.tables.Keys), pager.Now(a), EfficientPlan(vaddr, base, pages), flags)
  {
    hide pager.Uses, RegionEffect, RegionLeaves, Used, Unused, FrameRange, VirtualPage, Tree, NoHugeIn, Mappable,
         HugeFailure, Failure, Enough, AfterAll, CostAll, SmallPlan, AlignedPlan, MarksAre, AlignedRefused,
         EfficientRegion, Min;
    ghost var s0, t, was := pager.Now(a), pager.tables.Keys, a.Stock();
    var required := HeadPages(base);
    var huge := (pages - required) / 512;
    var rem := pages - (required + huge * 512);
    ghost var rest := AlignedPlan(vaddr + required * 0x1000, huge, rem);
    ghost var first := SmallPlan(vaddr, required);
    pager.PartsOfPlan(a, first, rest);
    SamePageFacts(vaddr, base, required, flags);
    r, done := MapPages(pager, a, vaddr, base, required, flags);
    if r.Some? {
      HeadOnly(s0, pager.Now(a), pager.cr3, vaddr, base, pages, done, flags);
      return;
    }
    ghost var s1, now := pager.Now(a), a.Stock();
    pager.RestOfPlan(a, t, was, first, rest);
    Boundary(base);
    MiddleFree(s0, s1, pager.cr3, Region(VirtualPage(vaddr), done, base / PAGE, flags.present, 0, 0),
               VirtualPage(vaddr + required * 0x1000), 512 * huge);
    ghost var more;
    r, more := MapAligned(pager, a, vaddr + required * 0x1000, base + required * 0x1000, huge, rem, flags);
    JoinHead(s0, s1, pager.Now(a), pager.cr3, vaddr, base, pages, more, flags);
    SmallPlanIs(vaddr, required);
    if r.None? {
      pager.PlanDone(a, t, was, first, s1.tables.Keys, now, rest);
      MarksBehind(t, pager.Now(a), first, rest, flags);
    }
    done := required + more;
  }

  // ----- byte by byte

  /** The page that byte `k` behind `vaddr` lies in. */
  function ByteAt(vaddr: nat, k: nat): Address { Translate(vaddr + k) }

  /** Byte `k` of a block at `base` is found behind `vaddr + k`, once the entries above its page are present. */
  ghost predicate ByteMapped(s0: Space, s1: Space, root: nat, vaddr: nat, base: nat, k: nat, present: bool) {
    var at := ByteAt(vaddr, k);
    var w := Walk(s1.mem, root, at);
    && Leaf(s1, at).frame == (base + k) / 0x1000
    && (w.Some? ==> w.value == (base + k) / 0x1000)
    && (present && PathOpen(s0.mem, root, at) ==> w.Some?)
  }

  ghost predicate BytesMapped(s0: Space, s1: Space, root: nat, vaddr: nat, base: nat, length: nat, present: bool) {
    forall k :: 0 <= k < length ==> ByteMapped(s0, s1, root, vaddr, base, k, present)
  }

  ghost predicate HoldsByte(b: Address, vaddr: nat, length: nat) {
    exists k :: 0 <= k < length && ByteAt(vaddr, k) == b
  }

  /** A page that holds no byte of the block is not touched. */
  ghost predicate OnlyBytes(s0: Space, s1: Space, root: nat, vaddr: nat, length: nat) {
    forall b :: HoldsByte(b, vaddr, length)
                || (Leaf(s1, b) == Leaf(s0, b) && Walk(s1.mem, root, b) == Walk(s0.mem, root, b))
  }

  lemma PagesHoldBytes(length: nat, k: nat, i: nat)
    ensures k < length ==> k / 0x1000 < PagesOf(length)
    ensures i < PagesOf(length) ==> i * 0x1000 < length
  {
  }

  lemma ByteOffset(vaddr: nat, k: nat)
    requires vaddr % 0x1000 == 0 && k / 0x1000 < SPACE_PAGES
    ensures Offset(ByteAt(vaddr, k), VirtualPage(vaddr)) == k / 0x1000
  {
    hide Offset;
    assert (vaddr + k) / PAGE == (vaddr + k / 0x1000 * 0x1000) / PAGE;
    OffsetOfTranslate(vaddr, k / 0x1000);
  }

  lemma RegionBytes(s0: Space, s1: Space, root: nat, vaddr: nat, base: nat, length: nat, done: nat, flags: Flags)
    requires done <= PagesOf(length) <= SPACE_PAGES && (done > 0 ==> vaddr % 0x1000 == 0 && base % 0x1000 == 0)
    requires var r := EfficientRegion(vaddr, base, PagesOf(length), flags.present, done);
             RegionEffect(s0, s1, root, r) && RegionLeaves(s0, s1, r, flags)
    ensures OnlyBytes(s0, s1, root, vaddr, length)
    ensures done == PagesOf(length) ==> BytesMapped(s0, s1, root, vaddr, base, length, flags.present)
  {
    hide Kept, Walk, PathOpen, UpperOpen, HugeAt, Offset, Leaf, VirtualPage, ByteAt, PagesOf;
    var r := EfficientRegion(vaddr, base, PagesOf(length), flags.present, done);
    forall b | Leaf(s1, b) != Leaf(s0, b) || Walk(s1.mem, root, b) != Walk(s0.mem, root, b)
      ensures HoldsByte(b, vaddr, length)
    {
      assert LeafInRegion(s0, s1, r, flags, b) && Walk(s1.mem, root, b) == RegionWalk(s0.mem, root, r, b);
      PageHoldsByte(b, vaddr, length, done);
    }
    forall k | 0 <= k < length && done == PagesOf(length)
      ensures ByteMapped(s0, s1, root, vaddr, base, k, flags.present)
    {
      PagesHoldBytes(length, k, 0);
      ByteOffset(vaddr, k);
      var at := ByteAt(vaddr, k);
      assert LeafInRegion(s0, s1, r, flags, at) && Walk(s1.mem, root, at) == RegionWalk(s0.mem, root, r, at);
      if PathOpen(s0.mem, root, at) { PathOpenUpperOpen(s0.mem, root, at); }
    }
  }

  lemma PageHoldsByte(b: Address, vaddr: nat, length: nat, done: nat)
    requires Offset(b, VirtualPage(vaddr)) < done <= PagesOf(length) && vaddr % 0x1000 == 0
    ensures HoldsByte(b, vaddr, length)
  {
    hide Offset, VirtualPage, ByteAt, PagesOf;
    var i: nat := Offset(b, VirtualPage(vaddr));
    PagesHoldBytes(length, 0, i);
    ByteOffset(vaddr, i * 0x1000);
    OffsetInjective(b, ByteAt(vaddr, i * 0x1000), VirtualPage(vaddr));
  }

  /** Page `i` of a block is mapped by a 2 MiB page exactly when the 2 MiB of physical memory around it, boundary to
      boundary, begin behind the start of the block and end within it. */
  lemma MiddleExactly(base: nat, pages: nat, i: nat)
    requires base % 0x1000 == 0 && i < pages
    ensures var start := (base + i * 0x1000) / 0x20_0000 * 0x20_0000;
            HeadPages(base) <= i < HeadPages(base) + 512 * HugePages(base, pages)
            <==> base < start && start + 0x20_0000 <= base + pages * 0x1000
  {
    var q, o := base / 0x20_0000, base % 0x20_0000 / 0x1000;
    assert base == q * 0x20_0000 + o * 0x1000;
    assert (base + i * 0x1000) / 0x20_0000 == q + (o + i) / 512;
  }

  method MapEfficient(block: MemoryBlock, pager: Pager, a: Allocator, vaddr: nat, flags: Flags)
    returns (r: Option<MemoryResult>, ghost done: nat)
    requires pager.Uses(a) && PagesOf(block.length) <= SPACE_PAGES
    requires Mappable(vaddr, block.base, flags) ==>
               && MiddleFits(pager, vaddr, block.base, PagesOf(block.length), flags)
               && pager.Affords(Attempted(vaddr, block.base, PagesOf(block.length), flags), a)
    modifies pager`tables, pager.memory, a`current, a.bitmap
    ensures pager.Uses(a)
    ensures RegionEffect(old(pager.Now(a)), pager.Now(a), pager.cr3,
                         EfficientRegion(vaddr, block.base, PagesOf(block.length), flags.present, done))
    ensures RegionLeaves(old(pager.Now(a)), pager.Now(a),
                         EfficientRegion(vaddr, block.base, PagesOf(block.length), flags.present, done), flags)
    ensures OnlyBytes(old(pager.Now(a)), pager.Now(a), pager.cr3, vaddr, block.length)
    ensures r.None? ==> BytesMapped(old(pager.Now(a)), pager.Now(a), pager.cr3, vaddr, block.base, block.length,
                                    flags.present)
    ensures EfficientOutcome(r, done, old(pager.tables.Keys),
        old(a.FreeFrames()), vaddr, block.base, PagesOf(block.length), flags)
    ensures r.None? ==>
              var plan := EfficientPlan(vaddr, block.base, PagesOf(block.length));
              && pager.TakenAll(old(pager.tables.Keys), old(a.Stock()), plan, a)
              && MarksAre(old(pager.tables.Keys), pager.Now(a), plan, flags)
    ensures flags.pat && HugePages(block.base, PagesOf(block.length)) > 0 ==> r.Some? && done <= HeadPages(block.base)
  {
    hide pager.Uses, RegionEffect, RegionLeaves, Used, Unused, FrameRange, VirtualPage, Tree, MiddleFits, Mappable,
         HugeFailure, Failure, Enough, AfterAll, CostAll, SmallPlan, AlignedPlan, MarksAre, EfficientRegion,
         OnlyBytes, BytesMapped;
    ghost var s0, t, free := pager.Now(a), pager.tables.Keys, a.FreeFrames();
    var offset := block.base % PAGER_2MIB / 0x1000;
    var required := 512 - offset;
    var pages := block.length / 0x1000;
    if block.length % 0x1000 != 0 {
      pages := pages + 1;
    }
    PatRefuses(vaddr, block.base, pages, flags);
    SamePageFacts(vaddr, block.base, 0, flags);
    if required > pages {
      r, done := MapPages(pager, a, vaddr, block.base, pages, flags);
      HeadOnly(s0, pager.Now(a), pager.cr3, vaddr, block.base, pages, done, flags);
      SmallMarks(t, pager.Now(a), vaddr, pages, flags);
    } else {
      r, done := MapSplit(pager, a, vaddr, block.base, pages, flags);
    }
    DoneIsAligned(r, done, t, free, vaddr, block.base, pages, flags);
    RegionBytes(s0, pager.Now(a), pager.cr3, vaddr, block.base, block.length, done, flags);
  }
}
