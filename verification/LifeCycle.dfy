/** Whole runs of a pager: filled page by page, then torn down. */
module LifeCycles {
  import opened Memory
  import opened Allocators
  import opened Paging
  import opened PagingSteps
  import opened PagerEffects
  import opened Rights
  import opened Plans
  import opened RegionEffects
  import opened Pagers
  import opened Mapping
  import opened Releasing

  datatype Request = Request(virt: nat, physical: nat, flags: Flags)

  predicate Accepted(q: Request) { Mappable(q.virt, q.physical, q.flags) }

  ghost function RequestStep(q: Request): seq<PageStep> { if Accepted(q) then [Small(Translate(q.virt))] else [] }

  /** The pages a run of requests asks for; the requests `page_4_kb` refuses take nothing. */
  ghost function RequestPlan(requests: seq<Request>): seq<PageStep> {
    if requests == [] then [] else RequestStep(requests[0]) + RequestPlan(requests[1..])
  }

  // ----- what a run of requests comes to, worked out from the requests alone

  /** The tables there are, those among them that were created without being present, the free frames, and what is
      mapped. */
  datatype Ledger = Ledger(tables: set<Pos>, closed: set<Pos>, free: nat, pages: map<Address, nat>)

  /** A table on the path of `a` is not present. */
  ghost predicate Blocked(closed: set<Pos>, a: Address) {
    TablePos(a, 1) in closed || TablePos(a, 2) in closed || TablePos(a, 3) in closed
  }

  ghost predicate Succeeds(l: Ledger, q: Request) {
    Accepted(q) && Missing(l.tables, Small(Translate(q.virt))) <= l.free
  }

  /** One request: the missing tables are created as far as the frames reach, present or not like the page, and with
      all of them the page is mapped, or unmapped when it is not present or its path is blocked. */
  ghost function Entered(l: Ledger, q: Request): Ledger {
    if !Accepted(q) then l
    else
      var at := Translate(q.virt);
      var made := Made(l.tables, Small(at), l.free);
      var closed := if q.flags.present then l.closed else l.closed + (made - l.tables);
      if !Succeeds(l, q) then Ledger(made, closed, 0, l.pages)
      else
        Ledger(made, closed, l.free - Missing(l.tables, Small(at)),
               if q.flags.present && !Blocked(l.closed, at) then l.pages[at := q.physical / PAGE] else l.pages - {at})
  }

  ghost function Settled(l: Ledger, requests: seq<Request>): Ledger {
    if requests == [] then l
    else
      var n := |requests| - 1;
      Entered(Settled(l, requests[..n]), requests[n])
  }

  /** Without requests that are not present no path is ever closed. */
  lemma {:induction false} PresentClosesNothing(l: Ledger, requests: seq<Request>)
    requires AllPresent(requests)
    ensures Settled(l, requests).closed == l.closed
  {
    hide Made;
    if requests != [] { PresentClosesNothing(l, requests[..|requests| - 1]); }
  }

  /** What the last successful request for an address mapped is what the address translates to in the end, if it is
      present and the path of the address was not blocked by then. */
  lemma {:induction false} LastRequestWins(l: Ledger, requests: seq<Request>, k: nat)
    requires k < |requests| && Succeeds(Settled(l, requests[..k]), requests[k])
    requires forall j :: k < j < |requests| ==> Translate(requests[j].virt) != Translate(requests[k].virt)
    ensures var at, pages := Translate(requests[k].virt), Settled(l, requests).pages;
            if requests[k].flags.present && !Blocked(Settled(l, requests[..k]).closed, at)
            then at in pages && pages[at] == requests[k].physical / PAGE else at !in pages
  {
    hide Translate, Made, Missing, Mappable, Blocked;
    var n := |requests| - 1;
    if k < n {
      assert requests[..n][..k] == requests[..k];
      LastRequestWins(l, requests[..n], k);
    }
  }

  /** The ledger is true of the page tables in memory. */
  ghost predicate Records(l: Ledger, s: Space, root: nat, free: nat) {
    && s.tables.Keys == l.tables && free == l.free && Translates(s.mem, root, l.pages)
    && forall a :: PathOpen(s.mem, root, a) <==> !Blocked(l.closed, a)
  }

  ghost predicate Translates(m: Frames, root: nat, t: map<Address, nat>) {
    forall a :: Walk(m, root, a) == if a in t then Some(t[a]) else None
  }

  ghost predicate AllPresent(requests: seq<Request>) { forall i :: 0 <= i < |requests| ==> requests[i].flags.present }

  lemma EmptyPager(m: Frames, root: nat)
    requires root in m && m[root] == EmptyTable()
    ensures Translates(m, root, map[]) && AllOpen(m, root) && NoHuge(m, map[Root := root])
  {
    EmptyTableIsZero();
  }

  /** What `page_4_kb` does is what the ledger says. */
  lemma AfterRequest(s0: Space, s1: Space, root: nat, q: Request, l: Ledger, free0: nat, free1: nat)
    requires if Succeeds(l, q) then Mapped(s0, s1, root, Translate(q.virt), q.physical / PAGE, q.flags.present)
             else Prepared(s0, s1, root, q.flags.present)
    requires NoHuge(s0.mem, s0.tables) && Records(l, s0, root, free0)
    requires s1.tables.Keys == Entered(l, q).tables && free1 == Entered(l, q).free
    requires !Accepted(q) ==> s1 == s0
    ensures NoHuge(s1.mem, s1.tables) && s1.used - s1.tables.Values == s0.used - s0.tables.Values
    ensures Records(Entered(l, q), s1, root, free1)
  {
    hide Walk, PathOpen, UpperOpen, HugeAt, Tree, Translate, Made, Missing, Mappable, TablePos, HugeSplits;
    var l1 := Entered(l, q);
    forall a ensures PathOpen(s1.mem, root, a) <==> !Blocked(l1.closed, a) {
      assert PathOpen(s0.mem, root, a) <==> !Blocked(l.closed, a);
      if !q.flags.present && Accepted(q) { assert Closes(s0, s1, root, a); }
    }
  }

  /** The frames for the rest of a plan are still there after its first page. */
  lemma FirstOfPlan(t: set<Pos>, free: int, s: PageStep, rest: seq<PageStep>)
    ensures Enough(t, free, [s] + rest) <==> Missing(t, s) <= free && Enough(After(t, s), free - Cost(t, s), rest)
  {
    hide Missing, After, Cost;
    PlanConcat(t, free, [s], rest);
    EmptyPlan(t, free);
    assert [s][..0] == [];
    PlanStep(t, free, [s], 0);
    assert [s][..1] == [s];
  }

  lemma NextRequest(requests: seq<Request>, i: nat)
    requires i < |requests|
    ensures RequestPlan(requests[i..]) == RequestStep(requests[i]) + RequestPlan(requests[i + 1..])
  {
    assert requests[i..][1..] == requests[i + 1..];
  }

  /** One request; `rest` is what is to be mapped after it. */
  method Serve(pager: Pager, a: Allocator, q: Request, ghost l: Ledger, ghost rest: seq<PageStep>)
    returns (r: Result<Page>)
    requires pager.Uses(a) && NoHuge(pager.memory.frames, pager.tables)
    requires Records(l, pager.Now(a), pager.cr3, a.FreeFrames())
    requires pager.Affords(RequestStep(q) + rest, a)
    modifies pager`tables, pager.memory, a`current, a.bitmap
    ensures pager.Uses(a) && NoHuge(pager.memory.frames, pager.tables) && pager.Affords(rest, a)
    ensures a.InUse() - pager.tables.Values == old(a.InUse() - pager.tables.Values)
    ensures r.Ok? <==> Succeeds(l, q)
    ensures Records(Entered(l, q), pager.Now(a), pager.cr3, a.FreeFrames())
    ensures Enough(old(pager.tables.Keys), old(a.FreeFrames()), RequestStep(q) + rest) ==>
              Enough(pager.tables.Keys, a.FreeFrames(), rest) && (r.Ok? <==> Accepted(q))
  {
    hide pager.Uses, NoHuge, Translates, AllOpen, Prepared, Mapped, Used, Unused,
         FrameRange, Translate, Mappable, Enough, Missing, Made, Cost, After, Blocked,
         Leaves4Kb, Untouched, Allowed, Upper;
    ghost var s0, free := pager.Now(a), a.FreeFrames();
    FirstOfPlan(pager.tables.Keys, a.FreeFrames(), Small(Translate(q.virt)), rest);
    assert [] + rest == rest;
    SmallIsLargeAndMore(pager.tables.Keys, Translate(q.virt));
    r := pager.Page4Kb(q.virt, q.physical, q.flags, a);
    AfterRequest(s0, pager.Now(a), pager.cr3, q, l, free, a.FreeFrames());
  }

  /** What a run on a pager without mappings starts from. */
  ghost function Opening(pager: Pager, a: Allocator): Ledger
    reads pager, a, a.bitmap
  {
    Ledger(pager.tables.Keys, {}, a.FreeFrames(), map[])
  }

  /** Runs a list of requests on a pager; each may succeed or fail. */
  method Populate(pager: Pager, a: Allocator, requests: seq<Request>) returns (results: seq<Result<Page>>)
    requires pager.Uses(a) && NoHuge(pager.memory.frames, pager.tables)
    requires Translates(pager.memory.frames, pager.cr3, map[]) && AllOpen(pager.memory.frames, pager.cr3)
    requires pager.Affords(RequestPlan(requests), a)
    modifies pager`tables, pager.memory, a`current, a.bitmap
    ensures pager.Uses(a) && NoHuge(pager.memory.frames, pager.tables)
    ensures a.InUse() - pager.tables.Values == old(a.InUse() - pager.tables.Values)
    ensures var l := old(Opening(pager, a));
            && Records(Settled(l, requests), pager.Now(a), pager.cr3, a.FreeFrames())
            && |results| == |requests|
            && forall i :: 0 <= i < |requests| ==>
              (results[i].Ok? <==> Succeeds(Settled(l, requests[..i]), requests[i]))
    ensures Enough(old(pager.tables.Keys), old(a.FreeFrames()), RequestPlan(requests)) ==>
              forall i :: 0 <= i < |requests| ==> (results[i].Ok? <==> Accepted(requests[i]))
  {
    hide pager.Uses, pager.Affords, NoHuge, Translates, Used, Unused, FrameRange, Mappable,
         Enough, RequestPlan, RequestStep, Entered, Records, Succeeds;
    ghost var t, free, l := pager.tables.Keys, a.FreeFrames(), Opening(pager, a);
    results := [];
    assert requests[0..] == requests;
    NothingEntered(pager, a);
    for i := 0 to |requests|
      invariant pager.Uses(a) && NoHuge(pager.memory.frames, pager.tables)
      invariant a.InUse() - pager.tables.Values == old(a.InUse() - pager.tables.Values)
      invariant |results| == i && Records(Settled(l, requests[..i]), pager.Now(a), pager.cr3, a.FreeFrames())
      invariant forall j :: 0 <= j < i ==> (results[j].Ok? <==> Succeeds(Settled(l, requests[..j]), requests[j]))
      invariant pager.Affords(RequestPlan(requests[i..]), a)
      invariant Enough(t, free, RequestPlan(requests)) ==>
                  && Enough(pager.tables.Keys, a.FreeFrames(), RequestPlan(requests[i..]))
                  && forall j :: 0 <= j < i ==> (results[j].Ok? <==> Accepted(requests[j]))
    {
      NextRequest(requests, i);
      var r := Serve(pager, a, requests[i], Settled(l, requests[..i]), RequestPlan(requests[i + 1..]));
      assert requests[..i + 1][..i] == requests[..i];
      results := results + [r];
    }
    assert requests[..|requests|] == requests;
  }

  lemma NothingEntered(pager: Pager, a: Allocator)
    requires Translates(pager.memory.frames, pager.cr3, map[]) && AllOpen(pager.memory.frames, pager.cr3)
    ensures Records(Opening(pager, a), pager.Now(a), pager.cr3, a.FreeFrames())
  {
  }

  /** A pager that is created, filled by any requests, and released gives all its memory back. */
  method BuildAndTearDown(a: Allocator, memory: PhysicalMemory, requests: seq<Request>)
    returns (r: Option<MemoryResult>)
    requires a.Supplies(1)
    requires a.Stock().guarded || Enough({Root}, a.FreeFrames() - 1, RequestPlan(requests))
    modifies a`current, a.bitmap, memory
    ensures a.Ready() && a.InUse() == old(a.InUse())
    ensures r.None? <==> old(a.FreeFrames()) > 0
    ensures r.Some? ==> r.value == Nospace
  {
    hide NoHuge, Translates, AllOpen, Used, Unused, FrameRange,
         NoMarkedHuge, Enough, MarkedPage, FrameAt, MarkedApart, Records, Succeeds;
    var root := AllocZero(a, memory);
    if root.Err? {
      return Some(root.error);
    }
    EmptyPager(memory.frames, root.value);
    a.UsedInRange();
    var pager := new Pager(memory, root.value);
    assert pager.tables.Keys == {Root} && pager.tables.Values == {root.value};
    var _ := Populate(pager, a, requests);
    NoHugeNoMarked(pager.memory.frames, pager.tables);
    NoMarkedNoPage(pager);
    ghost var freed;
    r, freed := Release(pager, a);
  }

  /** A page that is not present, mapped first on a new pager, blocks the path of a present one next to it. */
  lemma NeighbourBlocks(l: Ledger, first: Request, second: Request)
    requires l.tables == {Root} && l.closed == {} && l.free >= 3 && Accepted(first) && Accepted(second)
    requires InSlot(Translate(first.virt), Translate(second.virt))
    requires !first.flags.present && second.flags.present
    ensures Settled(l, []) == l && Settled(l, [first]) == Entered(l, first)
    ensures Succeeds(l, first) && Succeeds(Settled(l, [first]), second)
    ensures Translate(second.virt) !in Settled(l, [first, second]).pages
  {
    hide Mappable, Translate;
    var at := Translate(first.virt);
    SlotPath(at, Translate(second.virt));
    TablePosAre(at);
    assert [first][..0] == [] && [first, second][..1] == [first];
    SmallIsLargeAndMore(l.tables, at);
    MadeInSteps(l.tables, at, l.free);
    var l1 := Entered(l, first);
    assert TablePos(at, 1) in l1.closed;
    assert Missing(l1.tables, Small(Translate(second.virt))) == 0;
  }

  /** Both calls succeed, and the present page is not reached. */
  method BlockedByNeighbour(a: Allocator, memory: PhysicalMemory, first: Request, second: Request)
    returns (pager: Pager, results: seq<Result<Page>>)
    requires a.Ready() && a.Stock().inRange && a.FreeFrames() >= 4 && Accepted(first) && Accepted(second)
    requires InSlot(Translate(first.virt), Translate(second.virt))
    requires !first.flags.present && second.flags.present
    modifies a`current, a.bitmap, memory
    ensures |results| == 2 && results[0].Ok? && results[1].Ok?
    ensures Walk(memory.frames, pager.cr3, Translate(second.virt)) == None
  {
    hide NoHuge, AllOpen, Used, Unused, FrameRange, Translate, Mappable, Succeeds, Entered, Blocked, Enough;
    var root := AllocZero(a, memory);
    EmptyPager(memory.frames, root.value);
    a.UsedInRange();
    pager := new Pager(memory, root.value);
    assert pager.tables.Keys == {Root} && pager.tables.Values == {root.value};
    ghost var l, requests := Opening(pager, a), [first, second];
    NeighbourBlocks(l, first, second);
    TwoPagesAffordable(pager, a, first, second);
    results := Populate(pager, a, [first, second]);
    assert requests[..0] == [] && requests[..1] == [first];
    assert results[0].Ok? <==> Succeeds(Settled(l, requests[..0]), requests[0]);
    assert results[1].Ok? <==> Succeeds(Settled(l, requests[..1]), requests[1]);
  }

  lemma TwoPagesAffordable(pager: Pager, a: Allocator, first: Request, second: Request)
    requires a.Ready() && a.Stock().inRange && a.FreeFrames() >= 3 && pager.tables.Keys == {Root}
    requires Accepted(first) && Accepted(second) && InSlot(Translate(first.virt), Translate(second.virt))
    ensures pager.Affords(RequestPlan([first, second]), a)
  {
    hide Mappable, Translate, Used, Unused, FrameRange;
    var at := Translate(first.virt);
    SlotPath(at, Translate(second.virt));
    TablePosAre(at);
    assert [first, second][1..] == [second] && [second][1..] == [];
    var p1, p2 := Small(at), Small(Translate(second.virt));
    assert RequestPlan([]) == [] && RequestPlan([second]) == [p2] + [];
    assert RequestPlan([first, second]) == [p1] + [p2];
    FirstOfPlan({Root}, a.FreeFrames(), p1, [p2]);
    assert [p2] == [p2] + [];
    FirstOfPlan(After({Root}, p1), a.FreeFrames() - Cost({Root}, p1), p2, []);
  }

  lemma NoMarkedNoPage(pager: Pager)
    requires pager.Valid() && NoMarkedHuge(pager.memory.frames, pager.tables)
    ensures forall q :: !MarkedPage(pager.memory.frames, pager.tables, q)
  {
    hide MarkedPage, NoMarkedHuge, Tree;
    NoMarkedPage(pager.memory.frames, pager.tables);
  }

  // ----- `map_efficient` and marks

  /** No 2 MiB page of the plan is stored with the bit. */
  ghost predicate NoneStored(t: set<Pos>, plan: seq<PageStep>, flags: Flags) {
    forall j :: 0 <= j < |plan| && plan[j].Large? ==> !StoredMark(AfterAll(t, plan[..j]), plan[j].at, flags)
  }

  /** A pager without marked 2 MiB pages has none after `map_efficient` if none is stored with the bit. */
  lemma StillNoMarkedHuge(s0: Space, s1: Space, root: nat, vaddr: nat, base: nat, pages: nat, flags: Flags)
    requires NoMarkedHuge(s0.mem, s0.tables) && pages <= SPACE_PAGES
    requires HugePages(base, pages) > 0 ==> (vaddr + HeadPages(base) * 0x1000) % PAGER_2MIB == 0
    requires RegionEffect(s0, s1, root, EfficientRegion(vaddr, base, pages, flags.present, pages))
    requires MarksAre(s0.tables.Keys, s1, EfficientPlan(vaddr, base, pages), flags)
    requires NoneStored(s0.tables.Keys, EfficientPlan(vaddr, base, pages), flags)
    ensures NoMarkedHuge(s1.mem, s1.tables)
  {
    hide HugeAt, MarkedAt, Kept, Offset, EfficientPlan, StoredMark, AfterAll;
    var r, plan := EfficientRegion(vaddr, base, pages, flags.present, pages), EfficientPlan(vaddr, base, pages);
    forall a | HugeAt(s1.mem, s1.tables, a) ensures !MarkedAt(s1.mem, s1.tables, a) {
      assert SameHugeAt(s0, s1, r, a);
      if r.Middle(a) {
        var j := MiddleSlot(vaddr, base, pages, a);
        SameSlotSameMark(s1, plan[j].at, a);
      }
    }
  }

  lemma SameSlotSameMark(s: Space, at: Address, a: Address)
    requires InSlot(at, a)
    ensures HugeAt(s.mem, s.tables, a) == HugeAt(s.mem, s.tables, at)
        && MarkedAt(s.mem, s.tables, a) == MarkedAt(s.mem, s.tables, at)
  {
    SlotPath(at, a);
  }

  /** Every page of the middle lies in the slot of one of the 2 MiB pages of the plan. */
  lemma MiddleSlot(vaddr: nat, base: nat, pages: nat, a: Address) returns (j: nat)
    requires EfficientRegion(vaddr, base, pages, true, pages).Middle(a) && pages <= SPACE_PAGES
    requires (vaddr + HeadPages(base) * 0x1000) % PAGER_2MIB == 0
    ensures var plan := EfficientPlan(vaddr, base, pages);
            j < |plan| && plan[j].Large? && InSlot(plan[j].at, a)
  {
    hide Offset, Translate, VirtualPage, InSlot;
    var head, v := HeadPages(base), VirtualPage(vaddr);
    var i := (Offset(a, v) - head) / 512;
    var start := vaddr + head * 0x1000;
    j := head + i;
    SmallPlanIs(vaddr, head);
    LargePlanIs(start, HugePages(base, pages));
    var plan := EfficientPlan(vaddr, base, pages);
    assert plan[j] == LargePlan(start, HugePages(base, pages))[i];
    SlotAt(start, i);
    SameDistance(start, i);
    OffsetOfTranslate(vaddr, head + 512 * i);
    assert start + i * PAGER_2MIB == vaddr + (head + 512 * i) * 0x1000;
    SameSlotPages(plan[j].at, a, v, head + 512 * i);
  }

  // ----- a life with one 2 MiB page

  /** On a pager that had only its root, the first 2 MiB page is the one marked slot that holds no table. */
  lemma FirstLargePage(s0: Space, s1: Space, root: nat, at: Address, frame: nat, flags: Flags)
    requires s0.tables.Keys == {Root} && MappedHuge(s0, s1, root, at, frame, flags.present, true)
    requires Stores2Mb(s0, s1, root, at, frame, flags)
    ensures !NoMarkedHuge(s1.mem, s1.tables)
    ensures var q := Child(TablePos(at, 2), at.pt);
            FrameAt(s1.mem, s1.tables, q) == frame && forall p :: MarkedPage(s1.mem, s1.tables, p) <==> p == q
  {
    hide Slot, SlotUpdate, Tree, SlotFilled, StoredMark, Kept;
    var m, t, q := s1.mem, s1.tables, Child(TablePos(at, 2), at.pt);
    assert Tree(m, t) by { MappedHugeTree(s0, s1, root, at, frame, flags.present, true); }
    TablePosAre(at);
    assert Level(TablePos(at, 2)) == 2;
    assert HugeAfter(s0, s1, at, true, at);
    SlotFacts(m, t, TablePos(at, 2), at.pt);
    assert !NoMarkedHuge(m, t) by { assert HugeAt(m, t, at) && MarkedAt(m, t, at); }
    forall p | MarkedPage(m, t, p) ensures p == q {
      MarkedSlots(m, t, p.parent, p.index);
      OnlySlot(s0, s1, at, p);
    }
  }

  lemma OnlySlot(s0: Space, s1: Space, at: Address, p: Pos)
    requires s0.tables.Keys == {Root} && forall a :: HugeAfter(s0, s1, at, true, a)
    requires Tree(s1.mem, s1.tables) && MarkedPage(s1.mem, s1.tables, p) && Level(p.parent) == 2
    requires Slot(s1.mem, s1.tables[p.parent], p.index).flags.size
    ensures p == Child(TablePos(at, 2), at.pt)
  {
    hide Slot, Stored, SlotsOk;
    match p.parent
    case Child(Child(Root, x), y) =>
      assert x < 512 && y < 512;
      var a := Address(x, y, p.index, 0);
      TablePosAre(a);
      TablePosAre(at);
      assert HugeAt(s1.mem, s1.tables, a) && HugeAfter(s0, s1, at, true, a);
      assert Level(TablePos(a, 2)) == 2 && TablePos(a, 2) !in s0.tables.Keys;
    case _ => assert false;
  }

  /** What `release` makes of one marked page. */
  lemma OneMarkedPage(s: Space, q: Pos)
    requires Tree(s.mem, s.tables) && forall p :: MarkedPage(s.mem, s.tables, p) <==> p == q
    ensures var f, rest := FrameAt(s.mem, s.tables, q), s.used - s.tables.Values;
            && (MarkedApart(s) <==> f in rest)
            && rest - FramesOf(s.mem, s.tables, Marked(s.mem, s.tables)) == rest - {f}
  {
    hide Slot, Tree, FrameAt, MarkedPos;
    var m, t := s.mem, s.tables;
    var f, all := FrameAt(m, t, q), FramesOf(m, t, Marked(m, t));
    assert MarkedPage(m, t, q);
    MarkedInSlots(m, t, q);
    forall g | g in all && g !in t.Values ensures g == f {
      var p :| p in Marked(m, t) && FrameAt(m, t, p) == g;
      if p in t {
        MarkedIsNoRoot(m, t, p);
        TableMarked(m, t, p);
      } else {
        assert MarkedPage(m, t, p);
      }
    }
  }

  /** `page_2_mb` on a pager that has only its root leaves a marked 2 MiB page. */
  method BuildLarge(a: Allocator, memory: PhysicalMemory, virt: nat, physical: nat, flags: Flags)
    returns (pager: Pager, ghost page: Pos)
    requires a.Ready() && a.Stock().inRange && a.FreeFrames() >= 3
    requires MappableHuge(virt, physical, flags) && physical % PAGER_2MIB == 0
    modifies a`current, a.bitmap, memory
    ensures fresh(pager) && pager.memory == memory && pager.Uses(a)
    ensures a.InUse() - pager.tables.Values == old(a.InUse())
    ensures !NoMarkedHuge(memory.frames, pager.tables)
    ensures forall p :: MarkedPage(memory.frames, pager.tables, p) <==> p == page
    ensures FrameAt(memory.frames, pager.tables, page) == physical / PAGE
  {
    hide Used, Unused, FrameRange, NoMarkedHuge, Enough, MarkedPage,
         FrameAt, Translate, HugeAt, MappedHuge, Prepared, Tree, Stores2Mb;
    var root := AllocZero(a, memory);
    EmptyPager(memory.frames, root.value);
    a.UsedInRange();
    pager := new Pager(memory, root.value);
    assert pager.tables.Keys == {Root} && pager.tables.Values == {root.value};
    ghost var s0, at := pager.Now(a), Translate(virt);
    assert s0.used - s0.tables.Values == old(a.InUse());
    TablePosAre(at);
    RootOnly(memory.frames, pager.tables, at);
    var p := pager.Page2Mb(virt, physical, flags, a);
    ghost var s1 := pager.Now(a);
    FirstLargePage(s0, s1, pager.cr3, at, physical / PAGE, flags);
    StillTheOthers(s0, s1, pager.cr3, at, physical / PAGE, flags.present);
    page := Child(TablePos(at, 2), at.pt);
  }

  /** A pager that is created, given one 2 MiB page, and released: the data frame is given back with the tables, or its
      being free already is reported as an error. */
  method LargePageTornDown(a: Allocator, memory: PhysicalMemory, virt: nat, physical: nat, flags: Flags)
    returns (r: Option<MemoryResult>)
    requires a.Ready() && a.Stock().inRange && a.FreeFrames() >= 3
        && a.Within(MemoryBlock(physical / PAGE * PAGE, PAGE))
    requires MappableHuge(virt, physical, flags) && physical % PAGER_2MIB == 0
    modifies a`current, a.bitmap, memory
    ensures r.None? <==> physical / PAGE in old(a.InUse())
    ensures r.None? ==> a.InUse() == old(a.InUse()) - {physical / PAGE}
  {
    hide Used, Unused, FrameRange, NoMarkedHuge, MarkedPage, FrameAt, MarkedApart, Tree, FramesOf, Marked, a.Within;
    ghost var page, freed;
    var pager;
    pager, page := BuildLarge(a, memory, virt, physical, flags);
    OneMarkedPage(pager.Now(a), page);
    r, freed := Release(pager, a);
  }

  lemma RootOnly(m: Frames, t: Tables, at: Address)
    requires t.Keys == {Root}
    ensures !HugeAt(m, t, at)
  {
    assert Level(TablePos(at, 2)) == 2;
  }

  lemma StillTheOthers(s0: Space, s1: Space, root: nat, at: Address, frame: nat, present: bool)
    requires MappedHuge(s0, s1, root, at, frame, present, true)
    ensures s1.used - s1.tables.Values == s0.used - s0.tables.Values
  {
  }
}
