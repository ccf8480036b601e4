/** The pager (pager.rs): tables allocated lazily from the page-frame allocator and written in place. */
module Pagers {
  import opened Memory
  import opened Allocators
  import opened Paging
  import opened PagingSteps
  import opened PagerEffects
  import opened Plans
  import opened Rights

  /** Physical memory, as far as it holds page tables: 512 entries a frame. */
  class PhysicalMemory {
    var frames: Frames

    constructor ()
      ensures frames == map[]
    {
      frames := map[];
    }
  }

  method AllocZero(a: Allocator, memory: PhysicalMemory) returns (r: Result<nat>)
    requires a.Supplies(1)
    modifies a`current, a.bitmap, memory
    ensures r.Ok? <==> old(a.FreeFrames()) > 0
    ensures a.Spent(old(a.Stock()), if r.Ok? then 1 else 0)
    ensures r.Ok? ==>
        r.value !in old(a.InUse()) && r.value in a.AllFrames() && a.InUse() == old(a.InUse()) + {r.value}
                      && memory.frames == old(memory.frames)[r.value := EmptyTable()]
    ensures r.Err? ==> r.error == Nospace && a.InUse() == old(a.InUse()) && memory.frames == old(memory.frames)
  {
    hide Used, Unused, FrameRange, Strays, Placed, AllocSpec, Guarded;
    ghost var before, used := a.bitmap[..], a.InUse();
    a.SuppliesStays(1);
    var mb := a.Alloc(1);
    SameGuard(before, a.bitmap[..]);
    AllocOneFrame(before, a.addend, mb, a.bitmap[..]);
    match mb
    case Ok(b) =>
      OneFewer(a.AllFrames(), used, b.base / PAGE);
      InsideIs(before, a.addend, b, a.bitmap[..]);
      memory.frames := memory.frames[b.base / PAGE := EmptyTable()];
      return Ok(b.base / PAGE);
    case Err(e) =>
      assert a.bitmap[..] == before;
      NoneLeft(used);
      return Err(e);
  }

  lemma NoneLeft(all: set<nat>)
    ensures Unused(all, all) == 0
  {
  }

  lemma SameGuard(before: seq<bv32>, after: seq<bv32>)
    requires |before| == |after| > 0 && after[|after| - 1] == before[|before| - 1]
    ensures Guarded(after) == Guarded(before)
  {
  }

  lemma InsideIs(before: seq<bv32>, addend: nat, b: MemoryBlock, after: seq<bv32>)
    requires |before| > 0 && AllocSpec(before, addend, 1, Ok(b), after)
    ensures 0 <= FirstPage(addend, b) && FirstPage(addend, b) / 32 < |before| - 1
  {
  }

  // ----- the pager

  /** A cursor to one table entry: the entry's place, flags for what is created below it, the frame it
      points to, and how much memory it spans (0 for the top level). */
  datatype PointerTable = PointerTable(table: nat, index: Index, flags: Flags, address: nat, increment: nat)

  predicate SameSlot(e: PointerTable, f: PointerTable) {
    e.table == f.table && e.index == f.index && e.increment == f.increment
  }

  /** The flags of a cursor are those of the call, possibly with the "table allocated" bit. */
  predicate Inherited(f: Flags, g: Flags) { f.(stab := true) == g.(stab := true) && (g.stab ==> f.stab) }

  lemma InheritedStab(f: Flags)
    ensures Inherited(f.(stab := true), f)
  {
  }

  lemma InheritedFacts(f: Flags, g: Flags)
    requires Inherited(f, g)
    ensures f.present == g.present && f.size == g.size && (Low(f) <==> Low(g))
  {
  }

  lemma InheritedRefl(f: Flags)
    ensures Inherited(f, f)
  {
  }

  lemma InheritedTransitive(f: Flags, g: Flags, h: Flags)
    requires Inherited(f, g) && Inherited(g, h)
    ensures Inherited(f, h)
  {
  }

  const PAGER_2MIB: nat := 0x20_0000
  const PAGER_1GIB: nat := 0x4000_0000

  lemma FrameAligned(x: nat)
    requires x % PAGER_2MIB == 0
    ensures x / PAGE % 512 == 0
  {
    var q := x / PAGER_2MIB;
    assert x == q * 512 * PAGE;
    assert x / PAGE == q * 512;
  }

  /** An address the source takes for aligned lies on a 2 MiB boundary or half-way between two. */
  lemma FrameAlignment(x: nat)
    requires x % 0x10_0000 == 0
    ensures x / PAGE % 512 == if x % PAGER_2MIB == 0 then 0 else 256
  {
    var h, odd := x / 0x10_0000 / 2, x / 0x10_0000 % 2;
    assert x == h * PAGER_2MIB + odd * 0x10_0000;
    assert x / PAGE == h * 512 + odd * 256;
    HalfOfTwoMb(h, odd);
    HalfOf512(h, odd);
  }

  lemma HalfOfTwoMb(h: nat, odd: nat)
    requires odd < 2
    ensures (h * PAGER_2MIB + odd * 0x10_0000) % PAGER_2MIB == odd * 0x10_0000
  {
  }

  lemma HalfOf512(h: nat, odd: nat)
    requires odd < 2
    ensures (h * 512 + odd * 256) % 512 == odd * 256
  {
  }

  datatype Page = Page(physical: nat, virt: nat)

  /** Addresses and flags that `page_4_kb` accepts. */
  predicate Mappable(vaddr: nat, base: nat, flags: Flags) {
    vaddr % PAGE == 0 && base % PAGE == 0 && !Rejected(flags.(pat := false))
  }

  /** Addresses and flags that `page_2_mb` accepts; the addresses need not be multiples of 2 MiB. */
  predicate MappableHuge(vaddr: nat, base: nat, flags: Flags) {
    vaddr % 0x10_0000 == 0 && base % 0x10_0000 == 0 && !Rejected(flags)
  }

  /** The "table allocated" bit that `page_2_mb` stores in the slot of `at`: the one it was given, set when an upper
      table was created in the same call, and toggled when the slot's own table was given back. */
  predicate StoredMark(t: set<Pos>, at: Address, flags: Flags) {
    if TablePos(at, 3) in t then !flags.stab else flags.stab || TablePos(at, 2) !in t
  }

  /** The entry `page_2_mb` stores, and what becomes of the walk of every address. */
  ghost predicate Stores2Mb(s0: Space, s1: Space, root: nat, at: Address, frame: nat, flags: Flags) {
    var huge := HugeAt(s0.mem, s0.tables, at);
    && TablePos(at, 2) in s1.tables
    && Slot(s1.mem, s1.tables[TablePos(at, 2)], at.pt)
       == Entry(frame, flags.(size := !huge, stab := StoredMark(s0.tables.Keys, at, flags)))
    && SlotFilled(s0.mem, s1.mem, root, at, huge, frame, flags.present)
  }

  /** The 512 pages of the slot of `at`, and what the entries above tables allow. */
  ghost predicate Leaves2Mb(s0: Space, s1: Space, at: Address, frame: nat, flags: Flags) {
    && LeavesSet(s0, s1, at, Entry(frame, flags.(size := true, stab := StoredMark(s0.tables.Keys, at, flags))))
    && Granted(s0, s1, Upper(at), flags) && UpperKept(s0, s1, at, flags.rw)
  }

  lemma HugeAllowed(s0: Space, s1: Space, s2: Space, at: Address, frame: nat, flags: Flags)
    requires Tree(s1.mem, s1.tables) && TablePos(at, 2) in s1.tables && Allowed(s0, s1, Upper(at), flags)
    requires forall q :: q in s0.tables ==> q in s1.tables
    requires s2 == WithHuge(s1, at, Entry(frame, flags.(size := true, stab := StoredMark(s0.tables.Keys, at, flags))))
    ensures Leaves2Mb(s0, s2, at, frame, flags)
  {
    hide Allowed, LeavesSet, Granted, StoredMark, Upper, UpperKept, Stored, SlotsOk, Slot, SetSlot, TablePos;
    TablePosAre(at);
    assert Level(TablePos(at, 3)) == 3;
    var e := Entry(frame, flags.(size := true, stab := StoredMark(s0.tables.Keys, at, flags)));
    WriteHugeAllowed(s1, s2, at, e, flags);
    AllowedThenHuge(s0, s1, s2, Upper(at), at, e, flags);
    UpperGranted(s0, s2, at, flags);
  }

  lemma FreshFrameElsewhere(mem: Frames, tables: Tables, f: nat, table: seq<Entry>, p: Pos, i: Index)
    requires Stored(mem, tables) && f !in tables.Values && p in tables
    ensures Slot(mem[f := table], tables[p], i) == Slot(mem, tables[p], i)
  {
    FreshFrameChangesNothing(mem, tables, f, table);
  }

  lemma UnfoldedIs(mem: Frames, tables: Tables, p: Pos, i: Index, f: nat)
    requires p in tables
    ensures var e := Slot(mem, tables[p], i);
            var flags := e.flags.(size := false);
            Unfolded(mem, tables, p, i, f)
            == SetSlot(mem[f := SmallPages(e.frame, flags)], tables[p], i, Entry(f, flags.(stab := true)))
  {
  }

  /** Splitting a 2 MiB page only prepares, and its 512 pages keep what it allowed. */
  lemma UnfoldDone(s0: Space, p: Pos, i: Index, f: nat, present: bool)
    requires Tree(s0.mem, s0.tables) && s0.tables.Values <= s0.used <= s0.range && f !in s0.used && f in s0.range
    requires p in s0.tables && Level(p) < 3 && Slot(s0.mem, s0.tables[p], i).flags.size
    ensures Root in s0.tables && Child(p, i) !in s0.tables
    ensures var s1 := Space(Unfolded(s0.mem, s0.tables, p, i, f), s0.tables[Child(p, i) := f],
                            s0.used + {f}, s0.range);
            Prepared(s0, s1, s0.tables[Root], present) && AllowedAny(s0, s1)
  {
    hide Tree, Slot, Unfolded, Prepared, AllowedAny;
    var s1 := Space(Unfolded(s0.mem, s0.tables, p, i, f), s0.tables[Child(p, i) := f], s0.used + {f}, s0.range);
    SizeIsNotZero(Slot(s0.mem, s0.tables[p], i));
    TreeParts(s0.mem, s0.tables);
    SlotFacts(s0.mem, s0.tables, p, i);
    UnfoldPrepared(s0, p, i, f, present);
    UnfoldAllowed(s0, s1, p, i, f);
  }

  lemma AllowedInherited(s0: Space, s1: Space, f: Flags, g: Flags)
    requires Inherited(f, g) && Allowed(s0, s1, {}, f)
    ensures Allowed(s0, s1, {}, g)
  {
    hide Allowed;
    AllowedSame(s0, s1, {}, f, g);
  }

  /** The tables above the slot of `at` are prepared, and `f` are the flags that reach it. */
  ghost predicate PathReady(s0: Space, s1: Space, root: nat, at: Address, flags: Flags, f: Flags) {
    && Tree(s0.mem, s0.tables) && Root in s0.tables && s0.tables[Root] == root && Prepared(s0, s1, root, flags.present)
    && HugeStays(s0.mem, s0.tables, s1.mem, s1.tables)
    && s1.tables.Keys == s0.tables.Keys + {TablePos(at, 1), TablePos(at, 2)}
    && Inherited(f, flags) && f.stab == (flags.stab || TablePos(at, 2) !in s0.tables)
  }

  /** The bit a cursor carries to the slot of `at`, and what becomes of it there. */
  lemma PathFacts(s0: Space, s1: Space, root: nat, at: Address, flags: Flags, f: Flags)
    requires PathReady(s0, s1, root, at, flags, f) && !flags.size
    ensures Root in s0.tables && s0.tables[Root] == root && Prepared(s0, s1, root, flags.present)
        && f.present == flags.present
    ensures TablePos(at, 2) in s1.tables && s1.tables.Keys == s0.tables.Keys + {TablePos(at, 1), TablePos(at, 2)}
    ensures HugeAt(s1.mem, s1.tables, at) <==> HugeAt(s0.mem, s0.tables, at)
    ensures var mark := StoredMark(s0.tables.Keys, at, flags);
            && (TablePos(at, 3) in s1.tables <==> TablePos(at, 3) in s0.tables)
            && mark == (if TablePos(at, 3) in s1.tables then !f.stab else f.stab)
            && f.(size := true, stab := mark) == flags.(size := true, stab := mark)
            && (HugeAt(s0.mem, s0.tables, at) ==>
              f == flags.(size := false, stab := mark) && TablePos(at, 3) !in s0.tables)
  {
    hide Prepared, HugeStays, HugeAt, Tree;
    SameHuge(s0, s1, root, flags.present, at);
    MarkIs(s0, s1, at, flags, f);
  }

  lemma MarkIs(s0: Space, s1: Space, at: Address, flags: Flags, f: Flags)
    requires Tree(s0.mem, s0.tables)
    requires s1.tables.Keys == s0.tables.Keys + {TablePos(at, 1), TablePos(at, 2)}
    requires Inherited(f, flags) && f.stab == (flags.stab || TablePos(at, 2) !in s0.tables) && !flags.size
    ensures var mark := StoredMark(s0.tables.Keys, at, flags);
            && (TablePos(at, 3) in s1.tables <==> TablePos(at, 3) in s0.tables)
            && mark == (if TablePos(at, 3) in s1.tables then !f.stab else f.stab)
            && f.(size := true, stab := mark) == flags.(size := true, stab := mark)
            && (HugeAt(s0.mem, s0.tables, at) ==>
              f == flags.(size := false, stab := mark) && TablePos(at, 3) !in s0.tables)
    ensures f.present == flags.present
  {
    TablePosAre(at);
    if TablePos(at, 2) in s0.tables { SlotFacts(s0.mem, s0.tables, TablePos(at, 2), at.pt); }
  }

  /** The frame `get_physical` answers: for a page inside a 2 MiB page the first frame of the large page; where there
      is no last-level table, what frame 0 holds in its place, because the code reads the table without checking. */
  ghost function Reported(m: Frames, t: Tables, at: Address): nat
    requires TablePos(at, 2) in t
  {
    if HugeAt(m, t, at) then Slot(m, t[TablePos(at, 2)], at.pt).frame
    else Slot(m, if TablePos(at, 3) in t then t[TablePos(at, 3)] else 0, at.page).frame
  }

  /** For an address that translates, the answer is the hardware's exactly when the page is small, or the first one of a
      2 MiB page. */
  lemma ReportedFrame(m: Frames, t: Tables, at: Address)
    requires Tree(m, t) && Root in t && Walk(m, t[Root], at).Some?
    ensures TablePos(at, 2) in t
    ensures var w := Walk(m, t[Root], at).value;
            && Reported(m, t, at) == (if HugeAt(m, t, at) then w - at.page else w)
            && (Reported(m, t, at) == w <==> !HugeAt(m, t, at) || at.page == 0)
  {
    hide Slot, Walk, TablePos;
    TreeParts(m, t);
    TablePosAre(at);
    WalkUnfolded(m, t, at);
    SlotFactsFrom(m, t, at);
    SlotFacts(m, t, TablePos(at, 2), at.pt);
  }

  /** By its guard, or because enough frames are left in its range, an allocator serves all of a plan from the range. */
  ghost predicate Covers(was: Supply, t: set<Pos>, plan: seq<PageStep>) {
    was.guarded || (was.inRange && Enough(t, was.free, plan))
  }

  class Pager {
    const memory: PhysicalMemory
    const cr3: nat
    ghost var tables: Tables

    ghost predicate Valid()
      reads this, memory
    {
      Tree(memory.frames, tables) && tables[Root] == cr3
    }

    /** The allocator knows the tables as taken. */
    ghost predicate Uses(a: Allocator)
      reads this, memory, a, a.bitmap
    {
      Valid() && a.Ready() && tables.Values <= a.InUse() <= a.AllFrames()
    }

    ghost function Now(a: Allocator): Space
      reads this, memory, a, a.bitmap
    {
      Space(memory.frames, tables, a.InUse(), a.AllFrames())
    }

    /** No request for a table of the plan leaves the allocator's range. */
    ghost predicate Affords(plan: seq<PageStep>, a: Allocator)
      reads this, a, a.bitmap
    {
      a.Ready() && Covers(a.Stock(), tables.Keys, plan)
    }

    /** A whole plan was mapped. */
    ghost predicate TakenAll(t: set<Pos>, was: Supply, plan: seq<PageStep>, a: Allocator)
      reads this, a, a.bitmap
    {
      tables.Keys == AfterAll(t, plan) && a.Spent(was, CostAll(t, plan))
    }

    lemma NothingTaken(a: Allocator, plan: seq<PageStep>)
      requires a.Ready()
      ensures TakenAll(tables.Keys, a.Stock(), plan[..0], a) && Enough(tables.Keys, a.FreeFrames(), plan[..0])
    {
      PlanStart(tables.Keys, a.FreeFrames(), plan);
    }

    /** The next page of a plan can be served, and whether it is decides whether frames were enough that far. */
    lemma PlanGoesOn(a: Allocator, t: set<Pos>, was: Supply, plan: seq<PageStep>, i: nat)
      requires i < |plan| && TakenAll(t, was, plan[..i], a) && Covers(was, t, plan) && Enough(t, was.free, plan[..i])
      ensures a.Supplies(Missing(tables.Keys, plan[i]))
      ensures Missing(tables.Keys, plan[i]) <= a.FreeFrames() <==> Enough(t, was.free, plan[..i + 1])
      ensures Enough(t, was.free, plan) ==> Enough(t, was.free, plan[..i + 1])
    {
      hide Missing, Cost, After;
      PlanStep(t, was.free, plan, i);
      if Enough(t, was.free, plan) { EnoughPrefix(t, was.free, plan, i + 1); }
    }

    lemma PlanTaken(a: Allocator, t: set<Pos>, was: Supply, plan: seq<PageStep>, i: nat, now: Supply)
      requires i < |plan| && now.guarded == was.guarded && (was.inRange ==> now.inRange)
      requires now.free + CostAll(t, plan[..i]) == was.free && Taken(AfterAll(t, plan[..i]), now, plan[i], a)
      ensures TakenAll(t, was, plan[..i + 1], a)
    {
      hide Missing, Cost, After;
      PlanStep(t, was.free, plan, i);
    }

    /** A plan in two parts: who can afford all of it can afford the first. */
    lemma PartsOfPlan(a: Allocator, xs: seq<PageStep>, ys: seq<PageStep>)
      ensures Affords(xs + ys, a) ==> Affords(xs, a)
      ensures Enough(tables.Keys, a.FreeFrames(), xs + ys) ==> Enough(tables.Keys, a.FreeFrames(), xs)
    {
      hide Enough, AfterAll, CostAll;
      PlanConcat(tables.Keys, a.FreeFrames(), xs, ys);
    }

    /** And afterwards the second. */
    lemma RestOfPlan(a: Allocator, t: set<Pos>, was: Supply, xs: seq<PageStep>, ys: seq<PageStep>)
      requires TakenAll(t, was, xs, a)
      ensures Covers(was, t, xs + ys) ==> Affords(ys, a)
      ensures Enough(t, was.free, xs + ys) <==> Enough(t, was.free, xs) && Enough(tables.Keys, a.FreeFrames(), ys)
    {
      hide Enough, AfterAll, CostAll;
      PlanConcat(t, was.free, xs, ys);
    }

    lemma PlanDone(a: Allocator, t: set<Pos>, was: Supply, xs: seq<PageStep>,
                   t1: set<Pos>, now: Supply, ys: seq<PageStep>)
      requires t1 == AfterAll(t, xs) && now.guarded == was.guarded && (was.inRange ==> now.inRange)
      requires now.free + CostAll(t, xs) == was.free && TakenAll(t1, now, ys, a)
      ensures TakenAll(t, was, xs + ys, a)
    {
      hide Enough, AfterAll, CostAll;
      PlanConcat(t, was.free, xs, ys);
    }

    /** A page was mapped: there are exactly the tables it needs more than before, and as many frames less. */
    ghost predicate Taken(t: set<Pos>, was: Supply, s: PageStep, a: Allocator)
      reads this, a, a.bitmap
    {
      tables.Keys == After(t, s) && a.Spent(was, Cost(t, s))
    }

    /** A pager over a zeroed root table. */
    constructor (memory: PhysicalMemory, cr3: nat)
      requires cr3 in memory.frames && memory.frames[cr3] == EmptyTable()
      ensures Valid() && this.memory == memory && this.cr3 == cr3 && tables == map[Root := cr3]
    {
      this.memory := memory;
      this.cr3 := cr3;
      this.tables := map[Root := cr3];
      new;
      EmptyTableIsZero();
    }

    function Read(e: PointerTable): Entry
      reads memory
    {
      Slot(memory.frames, e.table, e.index)
    }

    function Top(index: Index, flags: Flags): PointerTable
      reads memory
    {
      PointerTable(cr3, index, flags, Slot(memory.frames, cr3, index).frame, 0)
    }

    function Instantiate(e: PointerTable, index: Index): Option<PointerTable>
      reads memory
    {
      if Read(e).flags.size then None
      else if e.increment == 0 then
        Some(PointerTable(e.address, index, e.flags, Slot(memory.frames, e.address, index).frame, PAGER_1GIB))
      else if e.increment == PAGER_1GIB then
        Some(PointerTable(e.address, index, e.flags, Slot(memory.frames, e.address, index).frame, PAGER_2MIB))
      else None
    }

    /** Hangs an empty table into the slot if the slot is empty. */
    method AllocateIfNecessary(e: PointerTable, a: Allocator, ghost p: Pos) returns (r: Result<PointerTable>)
      requires Uses(a) && p in tables && tables[p] == e.table && Level(p) < 3
      requires a.Supplies(Lacks(tables.Keys, Child(p, e.index)))
      requires !e.flags.size && Low(e.flags)
      requires !Read(e).flags.size && e.address == Read(e).frame
      modifies this`tables, memory, a`current, a.bitmap
      ensures Uses(a) && (r.Ok? <==> Lacks(old(tables.Keys), Child(p, e.index)) <= old(a.FreeFrames()))
      ensures r.Ok? ==> a.Spent(old(a.Stock()), Lacks(old(tables.Keys), Child(p, e.index)))
      ensures r.Ok? ==> tables.Keys == old(tables.Keys) + {Child(p, e.index)}
      ensures r.Err? ==> r.error == Nospace && a.Spent(old(a.Stock()), 0) && a.FreeFrames() == 0
      ensures r.Err? ==> tables == old(tables)
      ensures Prepared(old(Now(a)), Now(a), cr3, e.flags.present)
      ensures HugeStays(old(memory.frames), old(tables), memory.frames, tables)
      ensures Allowed(old(Now(a)), Now(a), {}, e.flags)
      ensures r.Ok? ==> r.value.flags.stab == (e.flags.stab || Child(p, e.index) !in old(tables))
      ensures r.Ok? ==> && Child(p, e.index) in tables && tables[Child(p, e.index)] == r.value.address
                        && !Read(r.value).flags.size && Read(r.value).frame == r.value.address && Read(r.value) != ZERO
                        && SameSlot(r.value, e) && Inherited(r.value.flags, e.flags)
    {
      hide Tree, Shape, Stored, HugeStays, SameWalk, SameOpen, Kept, Extends,
           NoNewHuge, Used, Unused, FrameRange, EmptyTable, SameElsewhere, Inherited;
      hide OpenAfter, HugeSplits, Hung, Allowed;
      InheritedRefl(e.flags);
      InheritedStab(e.flags);
      TreeParts(memory.frames, tables);
      ghost var s0 := Now(a);
      SlotFacts(s0.mem, s0.tables, p, e.index);
      PreparedRefl(s0, cr3, e.flags.present);
      AllowedUnchanged(s0);
      HugeStaysRefl(s0.mem, s0.tables);
      if Read(e) == ZERO && !e.flags.size {
        var base := AllocZero(a, memory);
        if base.Err? {
          return Err(base.error);
        }
        var flags := e.flags.(stab := true);
        var f := base.value;
        NewTableTree(s0.mem, s0.tables, p, e.index, f, flags);
        NewTableWalk(s0.mem, s0.tables, p, e.index, f, flags);
        EmptyTableIsZero();
        HangKeeps(s0, p, e.index, f, EmptyTable(), flags);
        HangSlots(s0.mem, s0.tables, p, e.index, f, EmptyTable(), flags);
        SlotMakesNoHuge(s0.mem, s0.tables, Hang(s0.mem, s0.tables, p, e.index, f, EmptyTable(), flags),
          s0.tables[Child(p, e.index) := f], p, e.index, f);
        memory.frames := SetSlot(memory.frames, e.table, e.index, Entry(f, flags));
        tables := tables[Child(p, e.index) := f];
        ExtendsByOne(s0.tables, Child(p, e.index), f);
        SlotKeepsHuge(s0.mem, s0.tables, memory.frames, tables, p, e.index);
        NewTableOpenAfter(s0, Now(a), p, e.index, f, flags);
        HugeStaysSplits(s0, Now(a));
        NewTableAllowed(s0, Now(a), p, e.index, f, flags);
        AllowedSame(s0, Now(a), {}, flags, e.flags);
        return Ok(e.(flags := flags, address := f));
      }
      return Ok(e);
    }

    /** Sets the write bit of a slot that leads to a table, if the flags ask for it. */
    method GrantIfNecessary(e: PointerTable, flags: Flags, a: Allocator, ghost p: Pos)
      requires Uses(a) && p in tables && tables[p] == e.table && Level(p) < 3
      requires Read(e) != ZERO && !Read(e).flags.size
      modifies memory
      ensures Uses(a)
      ensures Prepared(old(Now(a)), Now(a), cr3, flags.present)
      ensures HugeStays(old(memory.frames), tables, memory.frames, tables)
      ensures Allowed(old(Now(a)), Now(a), {Child(p, e.index)}, flags)
      ensures Read(e) != ZERO && Read(e).frame == old(Read(e)).frame && Read(e).flags.size == old(Read(e)).flags.size
    {
      hide Tree, Shape, Stored, HugeStays, SameWalk, SameOpen, Kept,
           NoNewHuge, Used, Unused, FrameRange, SameElsewhere, Slot, SetSlot;
      hide OpenAfter, HugeSplits, Hung, Allowed;
      TreeParts(memory.frames, tables);
      ghost var s0 := Now(a);
      PreparedRefl(s0, cr3, flags.present);
      HugeStaysRefl(s0.mem, tables);
      ExtendsRefl(tables);
      if flags.rw && !Read(e).flags.rw {
        GrantWriteTree(s0.mem, tables, p, e.index);
        GrantWriteWalk(s0.mem, tables, p, e.index);
        OneSlotChanges(s0.mem, tables, p, e.index, GrantWrite(Slot(s0.mem, e.table, e.index)));
        SetSlotKeeps(s0, p, e.index, GrantWrite(Slot(s0.mem, e.table, e.index)));
        memory.frames := SetSlot(memory.frames, e.table, e.index, GrantWrite(Read(e)));
        SameKindSameOpen(s0.mem, memory.frames, tables, p, e.index);
        SlotMakesNoHuge(s0.mem, tables, memory.frames, tables, p, e.index, 0);
        SlotKeepsHuge(s0.mem, tables, memory.frames, tables, p, e.index);
        NothingHung(s0, Now(a));
        SameOpenIsAfter(s0, Now(a), cr3, flags.present);
        HugeStaysSplits(s0, Now(a));
        GrantAllowed(s0, Now(a), p, e.index, flags);
      } else {
        AllowedRefl(s0, {Child(p, e.index)}, flags);
      }
    }

    /** The two steps `get_pd_allocated` takes on each of the two upper levels. */
    method EnsureTable(e: PointerTable, flags: Flags, a: Allocator, ghost p: Pos) returns (r: Result<PointerTable>)
      requires Uses(a) && p in tables && tables[p] == e.table && Level(p) < 3
      requires a.Supplies(Lacks(tables.Keys, Child(p, e.index)))
      requires !e.flags.size && Low(e.flags) && !Read(e).flags.size && e.address == Read(e).frame
      requires Inherited(e.flags, flags)
      modifies this`tables, memory, a`current, a.bitmap
      ensures Uses(a) && (r.Ok? <==> Lacks(old(tables.Keys), Child(p, e.index)) <= old(a.FreeFrames()))
      ensures r.Ok? ==> a.Spent(old(a.Stock()), Lacks(old(tables.Keys), Child(p, e.index)))
      ensures r.Ok? ==> tables.Keys == old(tables.Keys) + {Child(p, e.index)}
      ensures r.Err? ==> r.error == Nospace && a.Spent(old(a.Stock()), 0) && a.FreeFrames() == 0
      ensures r.Err? ==> tables == old(tables)
      ensures Prepared(old(Now(a)), Now(a), cr3, flags.present)
      ensures HugeStays(old(memory.frames), old(tables), memory.frames, tables)
      ensures Allowed(old(Now(a)), Now(a), if r.Ok? then {Child(p, e.index)} else {}, flags)
      ensures r.Ok? ==> r.value.flags.stab == (e.flags.stab || Child(p, e.index) !in old(tables))
      ensures r.Ok? ==> && p in tables && Child(p, e.index) in tables && tables[Child(p, e.index)] == r.value.address
                        && !Read(r.value).flags.size && r.value.increment == e.increment
                        && Inherited(r.value.flags, flags)
    {
      hide Uses, Prepared, HugeStays, Inherited, Used, Unused, FrameRange, Slot, SetSlot, Allowed;
      ghost var s0 := Now(a);
      InheritedFacts(e.flags, flags);
      r := AllocateIfNecessary(e, a, p);
      AllowedInherited(s0, Now(a), e.flags, flags);
      if r.Ok? {
        InheritedTransitive(r.value.flags, e.flags, flags);
        ghost var s1 := Now(a);
        PreparedHas(s0, s1, cr3, e.flags.present, p);
        GrantIfNecessary(r.value, flags, a, p);
        PreparedTransitive(s0, s1, Now(a), cr3, flags.present);
        AllowedSteps(s0, s1, Now(a), cr3, flags.present, {}, {Child(p, e.index)}, flags);
        assert {} + {Child(p, e.index)} == {Child(p, e.index)};
        HugeStaysTransitive(s0.mem, s0.tables, s1.mem, s1.tables, memory.frames, s1.tables);
      }
    }

    /** The second of the two upper levels. */
    method EnsureDirectory(pdpt: PointerTable, at: Address, flags: Flags, a: Allocator)
      returns (r: Result<PointerTable>)
      requires Uses(a) && a.Supplies(Lacks(tables.Keys, TablePos(at, 2))) && Low(flags) && !flags.size
      requires TablePos(at, 1) in tables && tables[TablePos(at, 1)] == pdpt.address && pdpt.increment == 0
      requires !Read(pdpt).flags.size && Inherited(pdpt.flags, flags)
      modifies this`tables, memory, a`current, a.bitmap
      ensures Uses(a) && (r.Ok? <==> Lacks(old(tables.Keys), TablePos(at, 2)) <= old(a.FreeFrames()))
      ensures r.Ok? ==> a.Spent(old(a.Stock()), Lacks(old(tables.Keys), TablePos(at, 2)))
      ensures r.Ok? ==> tables.Keys == old(tables.Keys) + {TablePos(at, 2)}
      ensures r.Err? ==> r.error == Nospace && a.Spent(old(a.Stock()), 0) && a.FreeFrames() == 0
      ensures r.Err? ==> tables == old(tables)
      ensures Prepared(old(Now(a)), Now(a), cr3, flags.present)
      ensures HugeStays(old(memory.frames), old(tables), memory.frames, tables)
      ensures Allowed(old(Now(a)), Now(a), if r.Ok? then {TablePos(at, 2)} else {}, flags)
      ensures r.Ok? ==> r.value.flags.stab == (pdpt.flags.stab || TablePos(at, 2) !in old(tables))
      ensures r.Ok? ==> && TablePos(at, 2) in tables && tables[TablePos(at, 2)] == r.value.address
                        && !Read(r.value).flags.size && r.value.increment == PAGER_1GIB
                        && Inherited(r.value.flags, flags)
    {
      hide Uses, Prepared, HugeStays, Used, Unused, FrameRange, Slot, SetSlot, TablePos, Allowed;
      TablePosAre(at);
      ghost var p1 := TablePos(at, 1);
      SlotOfPager(a, p1, at.pd);
      var pd := Instantiate(pdpt, at.pd).value;
      if Read(pd).flags.size {
        // the source answers InvalidActivateFlags here; the tree has no large pages at this level
        assert false;
      }
      InheritedFacts(pd.flags, flags);
      r := EnsureTable(pd, flags, a, p1);
    }

    /** The cursor to the second-level entry on the path of `at`, with every table down to it in place. */
    method GetPdAllocated(at: Address, flags: Flags, a: Allocator) returns (r: Result<PointerTable>)
      requires Uses(a) && a.Supplies(Missing(tables.Keys, Large(at))) && Low(flags) && !flags.size
      modifies this`tables, memory, a`current, a.bitmap
      ensures Uses(a) && (r.Ok? <==> Missing(old(tables.Keys), Large(at)) <= old(a.FreeFrames()))
      ensures r.Ok? ==> a.Spent(old(a.Stock()), Missing(old(tables.Keys), Large(at)))
      ensures r.Ok? ==> tables.Keys == old(tables.Keys) + {TablePos(at, 1), TablePos(at, 2)}
      ensures r.Err? ==> r.error == Nospace && a.Spent(old(a.Stock()), old(a.FreeFrames()))
      ensures r.Err? ==> tables.Keys == Made(old(tables.Keys), Large(at), old(a.FreeFrames()))
      ensures Prepared(old(Now(a)), Now(a), cr3, flags.present)
      ensures HugeStays(old(memory.frames), old(tables), memory.frames, tables)
      ensures Allowed(old(Now(a)), Now(a), Upper(at), flags)
      ensures r.Ok? ==> r.value.flags.stab == (flags.stab || TablePos(at, 2) !in old(tables))
      ensures r.Ok? ==> && TablePos(at, 2) in tables && tables[TablePos(at, 2)] == r.value.address
                        && !Read(r.value).flags.size && r.value.increment == PAGER_1GIB
                        && Inherited(r.value.flags, flags)
    {
      hide Uses, Prepared, HugeStays, Inherited, Used, Unused, FrameRange, Slot, SetSlot, TablePos, Made, Allowed;
      TablePosAre(at);
      MadeUpperInSteps(tables.Keys, at, a.FreeFrames());
      ghost var s0 := Now(a);
      SlotOfPager(a, Root, at.pdp);
      AboveIsThere(a, TablePos(at, 1), at.pd);
      var pdpt := Top(at.pdp, flags);
      InheritedRefl(flags);
      InheritedFacts(flags, flags);
      var step := EnsureTable(pdpt, flags, a, Root);
      if step.Err? {
        OnlyUpper(s0, Now(a), {}, at, flags);
        return Err(step.error);
      }
      ghost var s1 := Now(a);
      PreparedHas(s0, s1, cr3, flags.present, TablePos(at, 2));
      r := EnsureDirectory(step.value, at, flags, a);
      PreparedTransitive(s0, s1, Now(a), cr3, flags.present);
      ghost var second := if r.Ok? then {TablePos(at, 2)} else {};
      AllowedSteps(s0, s1, Now(a), cr3, flags.present, {TablePos(at, 1)}, second, flags);
      OnlyUpper(s0, Now(a), {TablePos(at, 1)} + second, at, flags);
      HugeStaysTransitive(s0.mem, s0.tables, s1.mem, s1.tables, memory.frames, tables);
    }

    lemma NothingDone(a: Allocator, present: bool)
      requires Uses(a)
      ensures Prepared(Now(a), Now(a), cr3, present) && a.Ready()
    {
      PreparedRefl(Now(a), cr3, present);
    }

    /** Replaces the 2 MiB page in a directory slot by a table with the same 512 pages. */
    method Unfold(e: PointerTable, a: Allocator, ghost p: Pos, ghost present: bool) returns (r: Result<PointerTable>)
      requires Uses(a) && a.Supplies(1) && p in tables && tables[p] == e.table && Level(p) < 3
      requires Read(e).flags.size && e.address == Read(e).frame
      modifies this`tables, memory, a`current, a.bitmap
      ensures Uses(a) && (r.Ok? <==> old(a.FreeFrames()) > 0)
      ensures Prepared(old(Now(a)), Now(a), cr3, present)
      ensures AllowedAny(old(Now(a)), Now(a))
      ensures r.Ok? ==> a.Spent(old(a.Stock()), 1) && tables.Keys == old(tables.Keys) + {Child(p, e.index)}
      ensures r.Err? ==> r.error == Nospace && a.Spent(old(a.Stock()), 0) && tables == old(tables)
      ensures r.Ok? ==>
          Child(p, e.index) !in old(tables) && Child(p, e.index) in tables
            && tables[Child(p, e.index)] == r.value.address
    {
      hide Tree, Prepared, Used, Unused, FrameRange, Slot, SetSlot, SmallPages, AllowedAny, Unfolded, Hang, EmptyTable,
           Shape, Stored, SlotsOk;
      ghost var s0 := Now(a);
      TreeParts(s0.mem, s0.tables);
      PreparedRefl(s0, cr3, present);
      AllowedUnchanged(s0);
      var mb := AllocZero(a, memory);
      if mb.Err? {
        return Err(mb.error);
      }
      var ptr := mb.value;
      UnfoldedIs(s0.mem, s0.tables, p, e.index, ptr);
      UnfoldDone(s0, p, e.index, ptr, present);
      ghost var held := Slot(s0.mem, e.table, e.index);
      FreshFrameElsewhere(s0.mem, s0.tables, ptr, EmptyTable(), p, e.index);
      var flags := Read(e).flags.(size := false);
      assert flags == held.flags.(size := false);
      memory.frames := memory.frames[ptr := SmallPages(e.address, flags)];
      assert memory.frames == s0.mem[ptr := SmallPages(held.frame, flags)];
      flags := flags.(stab := true);
      memory.frames := SetSlot(memory.frames, e.table, e.index, Entry(ptr, flags));
      assert memory.frames == Unfolded(s0.mem, s0.tables, p, e.index, ptr);
      tables := tables[Child(p, e.index) := ptr];
      PreparedTree(s0, Now(a), cr3, present);
      return Ok(e.(flags := flags, address := ptr));
    }

    /** Writes the entry of one page. */
    method WritePage(at: Address, table: nat, e: Entry, ghost given: Flags, ghost a: Allocator)
      requires Uses(a) && TablePos(at, 3) in tables && tables[TablePos(at, 3)] == table
      modifies memory
      ensures memory.frames == SetSlot(old(memory.frames), tables[TablePos(at, 3)], at.page, e)
      ensures Uses(a)
      ensures Mapped(old(Now(a)), Now(a), cr3, at, e.frame, e.flags.present)
      ensures LeafSet(old(Now(a)), Now(a), at, e) && Granted(old(Now(a)), Now(a), {}, given)
    {
      hide Tree, Shape, Stored, SlotsOk, SameWalk, SameOpen, Kept, Extends, NoNewHuge,
           Used, Unused, FrameRange, SameElsewhere, Slot, SetSlot, TablePos;
      hide PathOpen, PointUpdate, OpenAfter, HugeSplits, Hung, LeafSet, Granted;
      ghost var s0 := Now(a);
      TreeParts(s0.mem, tables);
      WriteLeafTree(s0.mem, tables, at, e);
      WriteLeafWalk(s0.mem, tables, at, e);
      OneSlotChanges(s0.mem, tables, TablePos(at, 3), at.page, e);
      SetSlotKeeps(s0, TablePos(at, 3), at.page, e);
      memory.frames := SetSlot(memory.frames, table, at.page, e);
      SameKindSameOpen(s0.mem, memory.frames, tables, TablePos(at, 3), at.page);
      SlotMakesNoHuge(s0.mem, tables, memory.frames, tables, TablePos(at, 3), at.page, 0);
      ExtendsRefl(tables);
      NothingHung(s0, Now(a));
      SameOpenIsAfter(s0, Now(a), cr3, e.flags.present);
      LeafKeepsHuge(s0, Now(a), at);
      WriteLeafAllowed(s0, Now(a), at, e, given);
    }

    lemma LeafKeepsHuge(s0: Space, s1: Space, at: Address)
      requires TablePos(at, 3) in s0.tables && s1.tables == s0.tables
      requires SameElsewhere(s0.mem, s1.mem, s0.tables, TablePos(at, 3), at.page)
      ensures HugeSplits(s0, s1)
    {
      hide Slot, TablePos;
      forall a | HugeAt(s0.mem, s0.tables, a) ensures HugeAt(s1.mem, s1.tables, a) {
        assert Level(TablePos(a, 2)) == 2 && Level(TablePos(at, 3)) == 3;
      }
    }

    /** The last-level table on the path of `at`: split off a 2 MiB page, created, or there already. */
    method EnsurePageTable(pt: PointerTable, at: Address, ghost given: Flags, a: Allocator)
      returns (r: Result<PointerTable>)
      requires Uses(a) && a.Supplies(Lacks(tables.Keys, TablePos(at, 3)))
      requires TablePos(at, 2) in tables && tables[TablePos(at, 2)] == pt.table
      requires pt.index == at.pt && pt.address == Read(pt).frame
      requires !pt.flags.size && Low(pt.flags) && Inherited(pt.flags, given)
      modifies this`tables, memory, a`current, a.bitmap
      ensures Uses(a) && (r.Ok? <==> Lacks(old(tables.Keys), TablePos(at, 3)) <= old(a.FreeFrames()))
      ensures Prepared(old(Now(a)), Now(a), cr3, given.present) && Allowed(old(Now(a)), Now(a), {}, given)
      ensures r.Ok? ==> a.Spent(old(a.Stock()), Lacks(old(tables.Keys), TablePos(at, 3)))
      ensures r.Ok? ==> tables.Keys == old(tables.Keys) + {TablePos(at, 3)}
      ensures r.Err? ==> r.error == Nospace && a.Spent(old(a.Stock()), 0) && a.FreeFrames() == 0
      ensures r.Err? ==> tables == old(tables)
      ensures r.Ok? ==> TablePos(at, 3) in tables && tables[TablePos(at, 3)] == r.value.address
    {
      hide Uses, Prepared, Inherited, Used, Unused, FrameRange, Slot, SetSlot, TablePos, HugeStays, Allowed;
      InheritedFacts(pt.flags, given);
      ghost var s0 := Now(a);
      TablePosAre(at);
      SlotOfPager(a, TablePos(at, 2), at.pt);
      if Read(pt).flags.size {
        r := Unfold(pt, a, TablePos(at, 2), given.present);
      } else {
        r := AllocateIfNecessary(pt, a, TablePos(at, 2));
        AllowedInherited(s0, Now(a), pt.flags, given);
      }
    }

    /** The steps of `page_4_kb` once its arguments are accepted; `flags` come without the PAT bit. */
    method Fill4Kb(at: Address, physical: nat, flags: Flags, patUsed: bool, a: Allocator) returns (r: Result<()>)
      requires Uses(a) && a.Supplies(Missing(tables.Keys, Small(at))) && !Rejected(flags) && Low(flags)
      modifies this`tables, memory, a`current, a.bitmap
      ensures Uses(a) && (r.Ok? <==> Missing(old(tables.Keys), Small(at)) <= old(a.FreeFrames()))
      ensures r.Ok? ==> Taken(old(tables.Keys), old(a.Stock()), Small(at), a)
      ensures r.Ok? ==> Mapped(old(Now(a)), Now(a), cr3, at, physical / PAGE, flags.present)
      ensures r.Ok? ==> LeafSet(old(Now(a)), Now(a), at, Entry(physical / PAGE, flags.(size := patUsed)))
                        && Granted(old(Now(a)), Now(a), Upper(at), flags)
                        && UpperKept(old(Now(a)), Now(a), at, flags.rw)
      ensures r.Err? ==> Prepared(old(Now(a)), Now(a), cr3, flags.present)
      ensures r.Err? ==> Allowed(old(Now(a)), Now(a), Upper(at), flags)
      ensures r.Err? ==> r.error == Nospace && a.Spent(old(a.Stock()), old(a.FreeFrames()))
      ensures tables.Keys == Made(old(tables.Keys), Small(at), old(a.FreeFrames()))
    {
      hide Uses, Prepared, Mapped, Inherited, Used, Unused, FrameRange,
           Slot, SetSlot, TablePos, Tree, Missing, After, Cost, Lacks, Made,
           Allowed, LeafSet, Granted, Upper, UpperKept;
      ghost var s0 := Now(a);
      SmallIsLargeAndMore(s0.tables.Keys, at);
      MadeInSteps(s0.tables.Keys, at, a.FreeFrames());
      var pd := GetPdAllocated(at, flags, a);
      if pd.Err? {
        return Err(pd.error);
      }
      ghost var s1 := Now(a);
      var pt := Instantiate(pd.value, at.pt).value;
      InheritedFacts(pd.value.flags, flags);
      var step := EnsurePageTable(pt, at, flags, a);
      PreparedTransitive(s0, s1, Now(a), cr3, flags.present);
      UpperAre(at);
      AllowedSteps(s0, s1, Now(a), cr3, flags.present, Upper(at), {}, flags);
      assert Upper(at) + {} == Upper(at);
      if step.Err? {
        return Err(step.error);
      }
      pt := step.value;
      var last := if patUsed then flags.(size := !flags.size) else flags;
      ghost var s2 := Now(a);
      assert pt.address == tables[TablePos(at, 3)];
      WritePage(at, pt.address, Entry(physical / PAGE, last), flags, a);
      PreparedThenWritten(s0, s2, Now(a), cr3, at, physical / PAGE, flags.present);
      AllowedThenSet(s0, s2, Now(a), Upper(at), at, Entry(physical / PAGE, last), flags);
      PreparedExtends(s0, s2, cr3, flags.present);
      UpperGranted(s0, Now(a), at, flags);
      return Ok(());
    }

    /** The page entry itself and the entries above tables are stated too: `RightsOfPage` reads the access rights off
        them. */
    method Page4Kb(virt: nat, physical: nat, flags: Flags, a: Allocator) returns (r: Result<Page>)
      requires Uses(a)
          && (Mappable(virt, physical, flags) ==> a.Supplies(Missing(tables.Keys, Small(Translate(virt)))))
      modifies this`tables, memory, a`current, a.bitmap
      ensures Uses(a)
      ensures r.Ok? <==> && Mappable(virt, physical, flags)
                         && Missing(old(tables.Keys), Small(Translate(virt))) <= old(a.FreeFrames())
      ensures r.Ok? ==> Taken(old(tables.Keys), old(a.Stock()), Small(Translate(virt)), a)
      ensures r.Ok? ==> && r.value == Page(physical, virt)
                        && Mapped(old(Now(a)), Now(a), cr3, Translate(virt), physical / PAGE, flags.present)
      ensures r.Ok? ==> Leaves4Kb(old(Now(a)), Now(a), Translate(virt), physical / PAGE, flags)
      ensures r.Err? ==> Prepared(old(Now(a)), Now(a), cr3, flags.present)
      ensures r.Err? ==> Untouched(old(Now(a)), Now(a), flags.rw)
      ensures Mappable(virt, physical, flags) && r.Err? ==>
                Allowed(old(Now(a)), Now(a), Upper(Translate(virt)), flags.(pat := false))
      ensures virt % 0x1000 != 0 || physical % 0x1000 != 0 ==> r == Err(InvalidAddress)
      ensures virt % 0x1000 == 0 && physical % 0x1000 == 0 && Rejected(flags.(pat := false)) ==> r == Err(InvalidFlags)
      ensures virt % 0x1000 == 0 && physical % 0x1000 == 0 ==>
                (r == Err(InvalidFlags) <==> flags.high != 0 || flags.size || flags.accessed)
      ensures Mappable(virt, physical, flags) && r.Err? ==>
                r.error == Nospace && a.Spent(old(a.Stock()), old(a.FreeFrames()))
      ensures Mappable(virt, physical, flags) ==>
                tables.Keys == Made(old(tables.Keys), Small(Translate(virt)), old(a.FreeFrames()))
      ensures !Mappable(virt, physical, flags) ==> Now(a) == old(Now(a)) && a.Spent(old(a.Stock()), 0)
    {
      hide Uses, Prepared, Mapped, Used, Unused, FrameRange, Tree, Translate, Untouched, UpperKept, Allowed, LeafSet,
           Granted, Upper;
      NothingTouched(Now(a), flags.rw);
      ghost var s0 := Now(a);
      NothingDone(a, flags.present);
      if virt % PAGE != 0 || physical % PAGE != 0 {
        return Err(InvalidAddress);
      }
      var patUsed, low := flags.pat, flags;
      if patUsed {
        low := flags.(pat := false);
      }
      if Rejected(low) {
        return Err(InvalidFlags);
      }
      var filled := Fill4Kb(Translate(virt), physical, low, patUsed, a);
      if filled.Err? {
        AllowedUntouched(s0, Now(a), cr3, flags.present, Upper(Translate(virt)), low);
        return Err(filled.error);
      }
      return Ok(Page(physical, virt));
    }

    /** Gives the frame a cursor points to back to the allocator, which fails exactly when the frame is not in use. */
    method Deallocate(e: PointerTable, a: Allocator) returns (r: Result<PointerTable>)
      requires a.Ready() && a.Within(MemoryBlock(e.address * PAGE, PAGE))
      modifies memory, a.bitmap
      ensures r.Ok? <==> e.address in old(a.InUse())
      ensures a.Spent(old(a.Stock()), if r.Ok? then -1 else 0)
      ensures r.Ok? ==> && a.InUse() == old(a.InUse()) - {e.address} && r.value == e.(flags := Toggled(e.flags))
                        && memory.frames == SetSlot(old(memory.frames), e.table, e.index,
                                                    old(Read(e)).(flags := Toggled(old(Read(e)).flags)))
      ensures r.Err? ==> a.InUse() == old(a.InUse()) && memory.frames == old(memory.frames)
    {
      hide Used, Unused, FrameRange, SetSlot, Slot, Guarded, FreeSpec;
      ghost var before, used := a.bitmap[..], a.InUse();
      var freed := a.Free(MemoryBlock(e.address * PAGE, PAGE));
      SameGuard(before, a.bitmap[..]);
      FreeOneFrame(before, a.addend, e.address, freed, a.bitmap[..]);
      match freed
      case Err(error) =>
        return Err(error);
      case Ok(_) =>
        a.UsedWithin(e.address, used, before);
        OneMore(a.AllFrames(), used, e.address);
        var was := Read(e);
        memory.frames := SetSlot(memory.frames, e.table, e.index, was.(flags := Toggled(was.flags)));
        return Ok(e.(flags := Toggled(e.flags)));
    }

    /** What keeps the tree intact under `page_2_mb`: the frame is aligned to 2 MiB (the source checks
        1 MiB), and the slot does not hold a 2 MiB page already (the source then stores the new address
        without the page-size bit). */
    ghost predicate Fits2Mb(at: Address, physical: nat)
      reads this, memory
    {
      physical % PAGER_2MIB == 0 && !HugeAt(memory.frames, tables, at)
    }

    /** The last steps of `page_2_mb` for a slot that holds no 2 MiB page: a table in the slot is given back,
        which toggles the "table allocated" bit. */
    method SetHuge(pt: PointerTable, at: Address, frame: nat, a: Allocator)
      requires Uses(a) && TablePos(at, 2) in tables && !HugeAt(memory.frames, tables, at)
      requires pt.table == tables[TablePos(at, 2)] && pt.index == at.pt && pt.address == Read(pt).frame
      modifies this`tables, memory, a.bitmap
      ensures a.Spent(old(a.Stock()), if TablePos(at, 3) in old(tables) then -1 else 0)
      ensures var mark := if TablePos(at, 3) in old(tables) then !pt.flags.stab else pt.flags.stab;
              Now(a) == WithHuge(old(Now(a)), at, Entry(frame, pt.flags.(size := true, stab := mark)))
    {
      hide Used, Unused, FrameRange, Slot, SetSlot, TablePos, Tree, HugeAt;
      var mapped := pt;
      ghost var s0 := Now(a);
      SlotStab(s0.mem, s0.tables, at);
      if Read(mapped).flags.stab {
        a.InUseWithin(mapped.address);
        var freed := Deallocate(mapped, a);
        mapped := freed.value;
        ghost var was := Slot(s0.mem, mapped.table, mapped.index);
        SetSlotTwice(s0.mem, mapped.table, mapped.index, was.(flags := Toggled(was.flags)),
          Entry(frame, mapped.flags.(size := true)));
      }
      mapped := mapped.(flags := mapped.flags.(size := true));
      memory.frames := SetSlot(memory.frames, mapped.table, mapped.index, Entry(frame, mapped.flags));
      tables := tables - {TablePos(at, 3)};
    }

    lemma HugeSet(a: Allocator, s0: Space, s1: Space, at: Address, frame: nat, e: Entry, flags: Flags)
      requires Root in s0.tables && s0.tables[Root] == cr3 && Prepared(s0, s1, cr3, e.flags.present)
      requires TablePos(at, 2) in s1.tables && Now(a) == WithHuge(s1, at, e) && a.Ready()
          && !HugeAt(s0.mem, s0.tables, at)
      requires e == Entry(frame, flags.(size := true, stab := StoredMark(s0.tables.Keys, at, flags)))
      requires Allowed(s0, s1, Upper(at), flags)
      requires frame % 512 == 0 || frame % 512 == 256
      ensures Stores2Mb(s0, Now(a), cr3, at, e.frame, flags) && Leaves2Mb(s0, Now(a), at, frame, flags)
      ensures s1.tables.Keys == s0.tables.Keys + {TablePos(at, 1), TablePos(at, 2)} ==>
                tables.Keys == After(s0.tables.Keys, Large(at))
      ensures frame % 512 == 0 ==>
                Uses(a) && MappedHuge(s0, Now(a), cr3, at, e.frame, e.flags.present, e.flags.stab)
    {
      hide Slot, SetSlot, TablePos, Tree, Prepared, SlotFilled, MappedHuge, a.InUse, HugeAt, StoredMark,
           Allowed, Leaves2Mb, Upper;
      PreparedTree(s0, s1, cr3, e.flags.present);
      SlotStored(s1.mem, s1.tables, TablePos(at, 2), at.pt);
      HugeEffect(s0, s1, cr3, at, e);
      PreparedExtends(s0, s1, cr3, e.flags.present);
      HugeAllowed(s0, s1, Now(a), at, frame, flags);
      assert Level(TablePos(at, 2)) == 2 && Level(TablePos(at, 3)) == 3;
    }

    lemma RemapSet(s0: Space, s1: Space, at: Address, e: Entry, flags: Flags)
      requires Root in s0.tables && s0.tables[Root] == cr3 && Prepared(s0, s1, cr3, e.flags.present)
      requires TablePos(at, 2) in s1.tables && HugeAt(s0.mem, s0.tables, at) && HugeAt(s1.mem, s1.tables, at)
      requires e.flags == flags.(size := false, stab := StoredMark(s0.tables.Keys, at, flags))
      ensures Stores2Mb(s0, s1.(mem := SetSlot(s1.mem, s1.tables[TablePos(at, 2)], at.pt, e)), cr3, at, e.frame, flags)
      ensures TablePos(at, 3) !in s0.tables && s1.tables.Keys == s0.tables.Keys + {TablePos(at, 1), TablePos(at, 2)} ==>
                s1.tables.Keys == After(s0.tables.Keys, Large(at))
    {
      hide Slot, SetSlot, TablePos, Tree, Prepared, SlotFilled, HugeAt, StoredMark;
      PreparedTree(s0, s1, cr3, e.flags.present);
      SlotStored(s1.mem, s1.tables, TablePos(at, 2), at.pt);
      FilledRemapped(s0, s1, cr3, at, e);
    }

    /** Stores the page into its slot, once the tables above are there. */
    method Put2Mb(pt: PointerTable, at: Address, frame: nat, flags: Flags, a: Allocator, ghost s0: Space)
      requires Uses(a) && TablePos(at, 2) in tables && (frame % 512 == 0 || frame % 512 == 256) && !flags.size
      requires pt.table == tables[TablePos(at, 2)] && pt.index == at.pt && pt.address == Read(pt).frame
      requires PathReady(s0, Now(a), cr3, at, flags, pt.flags) && Allowed(s0, Now(a), Upper(at), flags)
      modifies this`tables, memory, a.bitmap
      ensures a.Spent(old(a.Stock()), if TablePos(at, 3) in s0.tables then -1 else 0)
      ensures tables.Keys == After(s0.tables.Keys, Large(at)) && Stores2Mb(s0, Now(a), cr3, at, frame, flags)
      ensures frame % 512 == 0 && !HugeAt(s0.mem, s0.tables, at) ==>
                && Uses(a)
                && MappedHuge(s0, Now(a), cr3, at, frame, flags.present, StoredMark(s0.tables.Keys, at, flags))
      ensures !HugeAt(s0.mem, s0.tables, at) ==> Leaves2Mb(s0, Now(a), at, frame, flags)
    {
      hide Uses, Prepared, MappedHuge, Inherited, Used, Unused,
           FrameRange, Slot, SetSlot, TablePos, Tree, HugeAt, HugeStays;
      hide Stores2Mb, StoredMark, WithHuge, After, PathReady, Allowed, Leaves2Mb;
      ghost var s1 := Now(a);
      NothingDone(a, flags.present);
      PathFacts(s0, s1, cr3, at, flags, pt.flags);
      HugeSlot(s1.mem, s1.tables, at);
      if Read(pt).flags.size {
        RemapSet(s0, s1, at, Entry(frame, pt.flags), flags);
        memory.frames := SetSlot(memory.frames, pt.table, pt.index, Entry(frame, pt.flags));
      } else {
        SetHuge(pt, at, frame, a);
        ghost var mark := StoredMark(s0.tables.Keys, at, flags);
        HugeSet(a, s0, s1, at, frame, Entry(frame, pt.flags.(size := true, stab := mark)), flags);
      }
    }

    /** The steps of `page_2_mb` once its arguments are accepted. */
    method Fill2Mb(at: Address, physical: nat, flags: Flags, a: Allocator) returns (r: Result<()>)
      requires Uses(a) && a.Supplies(Missing(tables.Keys, Large(at))) && !Rejected(flags) && physical % 0x10_0000 == 0
      modifies this`tables, memory, a`current, a.bitmap
      ensures r.Ok? <==> Missing(old(tables.Keys), Large(at)) <= old(a.FreeFrames())
      ensures r.Ok? ==> Taken(old(tables.Keys), old(a.Stock()), Large(at), a)
      ensures r.Err? || old(Fits2Mb(at, physical)) ==> Uses(a)
      ensures r.Ok? && old(Fits2Mb(at, physical)) ==>
                MappedHuge(old(Now(a)), Now(a), cr3, at, physical / PAGE,
                  flags.present, StoredMark(old(tables.Keys), at, flags))
      ensures r.Ok? ==> Stores2Mb(old(Now(a)), Now(a), cr3, at, physical / PAGE, flags)
      ensures r.Ok? && !old(HugeAt(memory.frames, tables, at)) ==>
                Leaves2Mb(old(Now(a)), Now(a), at, physical / PAGE, flags)
      ensures r.Err? ==> Prepared(old(Now(a)), Now(a), cr3, flags.present)
      ensures r.Err? ==> Allowed(old(Now(a)), Now(a), Upper(at), flags)
      ensures r.Err? ==> r.error == Nospace && a.Spent(old(a.Stock()), old(a.FreeFrames()))
      ensures r.Err? ==> tables.Keys == Made(old(tables.Keys), Large(at), old(a.FreeFrames()))
    {
      hide Uses, Prepared, MappedHuge, Inherited, Used, Unused, FrameRange,
           Slot, TablePos, Tree, HugeAt, HugeStays, Stores2Mb, StoredMark, Leaves2Mb, Allowed, Upper;
      ghost var s0 := Now(a);
      NothingDone(a, flags.present);
      SlotOfPager(a, Root, at.pdp);
      PreparedTree(s0, s0, cr3, flags.present);
      var pd := GetPdAllocated(at, flags, a);
      if pd.Err? {
        return Err(pd.error);
      }
      var pt := Instantiate(pd.value, at.pt).value;
      FrameAlignment(physical);
      Put2Mb(pt, at, physical / PAGE, flags, a, s0);
      return Ok(());
    }

    method Page2Mb(virt: nat, physical: nat, flags: Flags, a: Allocator) returns (r: Result<Page>)
      requires Uses(a)
          && (MappableHuge(virt, physical, flags) ==> a.Supplies(Missing(tables.Keys, Large(Translate(virt)))))
      modifies this`tables, memory, a`current, a.bitmap
      ensures r.Ok? <==> && MappableHuge(virt, physical, flags)
                         && Missing(old(tables.Keys), Large(Translate(virt))) <= old(a.FreeFrames())
      ensures r.Ok? ==> Taken(old(tables.Keys), old(a.Stock()), Large(Translate(virt)), a)
      ensures r.Err? || old(Fits2Mb(Translate(virt), physical)) ==> Uses(a)
      ensures r.Ok? && old(Fits2Mb(Translate(virt), physical)) ==>
                MappedHuge(old(Now(a)), Now(a), cr3, Translate(virt), physical / PAGE, flags.present,
                           StoredMark(old(tables.Keys), Translate(virt), flags))
      ensures r.Ok? ==> && r.value == Page(physical, virt)
                        && Stores2Mb(old(Now(a)), Now(a), cr3, Translate(virt), physical / PAGE, flags)
      ensures r.Ok? && !old(HugeAt(memory.frames, tables, Translate(virt))) ==>
                Leaves2Mb(old(Now(a)), Now(a), Translate(virt), physical / PAGE, flags)
      ensures r.Err? ==> Prepared(old(Now(a)), Now(a), cr3, flags.present)
      ensures r.Err? ==> Untouched(old(Now(a)), Now(a), flags.rw)
      ensures MappableHuge(virt, physical, flags) && r.Err? ==>
                Allowed(old(Now(a)), Now(a), Upper(Translate(virt)), flags)
      ensures virt % 0x10_0000 != 0 || physical % 0x10_0000 != 0 ==> r == Err(InvalidAddress)
      ensures virt % 0x10_0000 == 0 && physical % 0x10_0000 == 0 && Rejected(flags) ==> r == Err(InvalidFlags)
      ensures virt % 0x10_0000 == 0 && physical % 0x10_0000 == 0 ==>
                (r == Err(InvalidFlags) <==> flags.high != 0 || flags.pat || flags.size || flags.accessed)
      ensures MappableHuge(virt, physical, flags) && r.Err? ==>
                && r.error == Nospace && a.Spent(old(a.Stock()), old(a.FreeFrames()))
                && tables.Keys == Made(old(tables.Keys), Large(Translate(virt)), old(a.FreeFrames()))
      ensures !MappableHuge(virt, physical, flags) ==> Now(a) == old(Now(a)) && a.Spent(old(a.Stock()), 0)
    {
      hide Uses, Fits2Mb, Prepared, MappedHuge, Used, Unused, FrameRange, Translate, Stores2Mb, StoredMark, Leaves2Mb,
           Untouched, Allowed, Upper, HugeAt;
      NothingTouched(Now(a), flags.rw);
      ghost var s0 := Now(a);
      NothingDone(a, flags.present);
      if virt % 0x10_0000 != 0 || physical % 0x10_0000 != 0 {
        return Err(InvalidAddress);
      }
      if Rejected(flags) {
        return Err(InvalidFlags);
      }
      var filled := Fill2Mb(Translate(virt), physical, flags, a);
      if filled.Err? {
        AllowedUntouched(s0, Now(a), cr3, flags.present, Upper(Translate(virt)), flags);
        return Err(filled.error);
      }
      return Ok(Page(physical, virt));
    }

    /** The directory entry on the path of `at`, or an error when an entry above it is empty. */
    function GetPdUnallocated(at: Address, flags: Flags): Result<PointerTable>
      reads this, memory
    {
      var pdpt := Top(at.pdp, flags);
      if Read(pdpt) == ZERO then Err(PagingError)
      else
        var pd := Instantiate(pdpt, at.pd);
        if pd.None? then Err(PagingError)
        else if Read(pd.value) == ZERO then Err(PagingError)
        else if Read(pd.value).flags.size then Err(InvalidActivateFlags)
        else Ok(pd.value)
    }

    /** The physical address behind a virtual one: the frame `Reported`, whether anything is present or not. It fails
        exactly when there is no directory for the address. */
    method GetPhysical(virt: nat) returns (r: Result<nat>)
      requires Valid()
      ensures virt % PAGE != 0 ==> r == Err(InvalidAddress)
      ensures virt % PAGE == 0 ==>
                r == if TablePos(Translate(virt), 2) in tables
                     then Ok(Reported(memory.frames, tables, Translate(virt)) * PAGE)
                     else Err(PagingError)
    {
      hide Slot, TablePos, Translate;
      if virt % PAGE != 0 {
        return Err(InvalidAddress);
      }
      var at := Translate(virt);
      TreeParts(memory.frames, tables);
      TablePosAre(at);
      SlotFacts(memory.frames, tables, Root, at.pdp);
      if TablePos(at, 1) in tables { SlotFacts(memory.frames, tables, TablePos(at, 1), at.pd); }
      if TablePos(at, 2) in tables { SlotFacts(memory.frames, tables, TablePos(at, 2), at.pt); }
      var pd := GetPdUnallocated(at, Read(Top(at.pdp, NO_FLAGS)).flags);
      if pd.Err? {
        return Err(pd.error);
      }
      var pt := Instantiate(pd.value, at.pt).value;
      if Read(pt).flags.size {
        return Ok(pt.address * PAGE);
      } else {
        return Ok(Slot(memory.frames, pt.address, at.page).frame * PAGE);
      }
    }

    lemma AboveIsThere(a: Allocator, p: Pos, i: Index)
      requires Uses(a)
      ensures Child(p, i) in tables ==> p in tables
    {
    }

    lemma SlotOfPager(a: Allocator, p: Pos, i: Index)
      requires Uses(a) && (p == Root || p in tables) && Level(p) < 3
      ensures Root in tables && tables[Root] == cr3
      ensures var e := Slot(memory.frames, tables[p], i);
              && (e == ZERO ==> Child(p, i) !in tables)
              && (e.flags.size ==> Level(p) == 2 && e.frame % 512 == 0 && Child(p, i) !in tables)
              && (e != ZERO && !e.flags.size ==>
                e.flags.stab && Child(p, i) in tables && tables[Child(p, i)] == e.frame)
    {
      TreeParts(memory.frames, tables);
      SlotFacts(memory.frames, tables, p, i);
    }
  }

  /** The "table allocated" bit, flipped. */
  function Toggled(f: Flags): Flags { f.(stab := !f.stab) }
}
