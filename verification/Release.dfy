/** Tearing an address space down (pager.rs, `release`).

The code gives back what every entry with the "table allocated" bit points to. Among these entries are those of
2 MiB pages that carry the bit, so the model counts slots, not tables. */
module Releasing {
  import opened Memory
  import opened Allocators
  import opened Paging
  import opened PagingSteps
  import opened PagerEffects
  import opened Pagers

  /** No 2 MiB page carries the "table allocated" bit. */
  ghost predicate NoMarkedHuge(m: Frames, t: Tables) {
    forall a :: HugeAt(m, t, a) ==> !MarkedAt(m, t, a)
  }

  /** Pagers that were only ever filled by `page_4_kb` hold no 2 MiB pages at all. */
  ghost predicate NoHuge(m: Frames, t: Tables) { forall a :: !HugeAt(m, t, a) }

  // ----- marked slots

  /** The slot at position `q` carries the bit. */
  ghost predicate MarkedPos(m: Frames, t: Tables, q: Pos) {
    && q.Child? && q.parent in t && Level(q.parent) < 3 && q.index < 512
    && Slot(m, t[q.parent], q.index).flags.stab
  }

  /** It does, and no table hangs there. */
  ghost predicate MarkedPage(m: Frames, t: Tables, q: Pos) { MarkedPos(m, t, q) && q !in t }

  ghost function FrameAt(m: Frames, t: Tables, q: Pos): nat {
    if q.Child? && q.parent in t && q.index < 512 then Slot(m, t[q.parent], q.index).frame else 0
  }

  /** In a tree every table hangs below a marked slot, and the other marked slots hold 2 MiB pages. */
  lemma MarkedSlots(m: Frames, t: Tables, p: Pos, i: Index)
    requires Tree(m, t) && p in t && Level(p) < 3
    ensures Child(p, i) in t ==> MarkedPos(m, t, Child(p, i)) && FrameAt(m, t, Child(p, i)) == t[Child(p, i)]
    ensures MarkedPage(m, t, Child(p, i)) ==> Level(p) == 2 && Slot(m, t[p], i).flags.size
  {
    hide Slot;
    SlotFacts(m, t, p, i);
  }

  lemma TableMarked(m: Frames, t: Tables, q: Pos)
    requires Tree(m, t) && q in t && q != Root
    ensures MarkedPos(m, t, q) && FrameAt(m, t, q) == t[q]
  {
    hide Slot, Stored;
    assert q.parent in t && q.index < 512 && Level(q) <= 3;
    MarkedSlots(m, t, q.parent, q.index);
  }

  lemma NoMarkedPage(m: Frames, t: Tables)
    requires Tree(m, t)
    ensures NoMarkedHuge(m, t) <==> forall q :: !MarkedPage(m, t, q)
  {
    hide Slot, Stored;
    TreeParts(m, t);
    forall q | MarkedPage(m, t, q) ensures exists a :: HugeAt(m, t, a) && MarkedAt(m, t, a) {
      MarkedSlots(m, t, q.parent, q.index);
      match q.parent
      case Child(Child(Root, x), y) =>
        assert x < 512 && y < 512;
        var a := Address(x, y, q.index, 0);
        TablePosAre(a);
        assert HugeAt(m, t, a) && MarkedAt(m, t, a);
      case _ => assert false;
    }
    forall a | HugeAt(m, t, a) && MarkedAt(m, t, a) ensures exists q :: MarkedPage(m, t, q) {
      TablePosAre(a);
      SlotFacts(m, t, TablePos(a, 2), a.pt);
      assert MarkedPage(m, t, Child(TablePos(a, 2), a.pt));
    }
  }

  lemma NoHugeNoMarked(m: Frames, t: Tables)
    requires NoHuge(m, t)
    ensures NoMarkedHuge(m, t)
  {
  }

  // ----- which slots have been dealt with

  function P1(i: nat): Pos { Child(Root, i) }
  function P2(i: nat, j: nat): Pos { Child(P1(i), j) }
  function P3(i: nat, j: nat, k: nat): Pos { Child(P2(i, j), k) }

  /** The slot at `q` comes before the loops' position `(i, j, k)`; a slot comes after the slots of its table. */
  predicate GoneAt(i: nat, j: nat, k: nat, q: Pos) {
    match q
    case Child(Root, x) => x < i
    case Child(Child(Root, x), y) => x < i || (x == i && y < j)
    case Child(Child(Child(Root, x), y), z) => x < i || (x == i && (y < j || (y == j && z < k)))
    case _ => false
  }

  ghost function Slots(t: Tables): set<Pos> { set p, i: nat | p in t && 0 <= i < 512 :: Child(p, i) }

  ghost function Gone(m: Frames, t: Tables, i: nat, j: nat, k: nat): set<Pos> {
    set q | q in Slots(t) && MarkedPos(m, t, q) && GoneAt(i, j, k, q)
  }

  ghost function Marked(m: Frames, t: Tables): set<Pos> { set q | q in Slots(t) && MarkedPos(m, t, q) }

  lemma MarkedInSlots(m: Frames, t: Tables, q: Pos)
    requires MarkedPos(m, t, q)
    ensures q in Slots(t) && q in Marked(m, t)
  {
    assert q == Child(q.parent, q.index);
  }

  lemma GoneTable(m: Frames, t: Tables, i: nat, j: nat, k: nat)
    ensures Gone(m, t, i, j, k + 1) == Gone(m, t, i, j, k) + if MarkedPos(m, t, P3(i, j, k)) then {P3(i, j, k)} else {}
    ensures P1(i) !in Gone(m, t, i, j, k) && P2(i, j) !in Gone(m, t, i, j, k) && P3(i, j, k) !in Gone(m, t, i, j, k)
  {
    hide MarkedPos, Slots;
    forall q | MarkedPos(m, t, q)
      ensures q in Slots(t) && (GoneAt(i, j, k + 1, q) <==> GoneAt(i, j, k, q) || q == P3(i, j, k))
    {
      MarkedInSlots(m, t, q);
      match q
      case Child(Child(Child(Root, x), y), z) => assert q == P3(x, y, z);
      case _ =>
    }
  }

  lemma GoneDirectory(m: Frames, t: Tables, i: nat, j: nat)
    requires Tree(m, t)
    ensures Gone(m, t, i, j + 1, 0) == Gone(m, t, i, j, 512) + if MarkedPos(m, t, P2(i, j)) then {P2(i, j)} else {}
    ensures !MarkedPos(m, t, P2(i, j)) ==> Gone(m, t, i, j + 1, 0) == Gone(m, t, i, j, 0)
    ensures P2(i, j) !in Gone(m, t, i, j, 512) && P1(i) !in Gone(m, t, i, j, 512)
  {
    hide Slots, Tree, Slot;
    forall q | MarkedPos(m, t, q)
      ensures q in Slots(t) && (GoneAt(i, j + 1, 0, q) <==> GoneAt(i, j, 512, q) || q == P2(i, j))
      ensures !MarkedPos(m, t, P2(i, j)) ==> (GoneAt(i, j + 1, 0, q) <==> GoneAt(i, j, 0, q))
    {
      MarkedInSlots(m, t, q);
      if q.parent == P2(i, j) { TableMarked(m, t, q.parent); }
    }
  }

  lemma GonePdpt(m: Frames, t: Tables, i: nat)
    requires Tree(m, t)
    ensures Gone(m, t, i + 1, 0, 0) == Gone(m, t, i, 512, 0) + if MarkedPos(m, t, P1(i)) then {P1(i)} else {}
    ensures !MarkedPos(m, t, P1(i)) ==> Gone(m, t, i + 1, 0, 0) == Gone(m, t, i, 0, 0)
    ensures P1(i) !in Gone(m, t, i, 512, 0)
  {
    hide Slots, Tree, Slot;
    forall q | MarkedPos(m, t, q)
      ensures q in Slots(t) && (GoneAt(i + 1, 0, 0, q) <==> GoneAt(i, 512, 0, q) || q == P1(i))
      ensures !MarkedPos(m, t, P1(i)) ==> (GoneAt(i + 1, 0, 0, q) <==> GoneAt(i, 0, 0, q))
    {
      MarkedInSlots(m, t, q);
      if q.parent.Child? {
        TableMarked(m, t, q.parent);
        if q.parent.parent == P1(i) { TableMarked(m, t, P1(i)); }
      }
    }
  }

  lemma GoneEnds(m: Frames, t: Tables)
    requires Tree(m, t)
    ensures Gone(m, t, 0, 0, 0) == {} && Gone(m, t, 512, 0, 0) == Marked(m, t)
  {
    hide Slots, Stored, SlotsOk, Slot;
    TreeParts(m, t);
    forall q | MarkedPos(m, t, q) ensures GoneAt(512, 0, 0, q) && !GoneAt(0, 0, 0, q) {
      ShortPositions(t, q.parent);
      match q
      case Child(Root, x) =>
      case Child(Child(Root, x), y) => assert q.parent in t;
      case Child(Child(Child(Root, x), y), z) => assert q.parent in t && q.parent.parent in t;
    }
  }

  lemma Levels(r: Pos, x: nat, y: nat, z: nat)
    ensures Level(Child(Child(Child(r, x), y), z)) >= 3
  {
    assert Level(Child(Child(r, x), y)) >= 2;
  }

  /** Tables above the last level hang at most two slots below the root. */
  lemma ShortPositions(t: Tables, p: Pos)
    requires Shape(t) && p in t && Level(p) < 3
    ensures p == Root || p.parent == Root || p.parent.parent == Root
  {
    match p
    case Child(Child(Child(r, x), y), z) =>
      Levels(r, x, y, z);
      assert false;
    case _ =>
  }

  // ----- the state of a teardown

  ghost function FramesOf(m: Frames, t: Tables, gone: set<Pos>): set<nat> { set q | q in gone :: FrameAt(m, t, q) }

  ghost predicate Distinct(s: seq<nat>) { forall i, j :: 0 <= i < j < |s| ==> s[i] != s[j] }

  ghost predicate Apart(m: Frames, t: Tables, gone: set<Pos>) {
    forall q, q' :: q in gone && q' in gone && FrameAt(m, t, q) == FrameAt(m, t, q') ==> q == q'
  }

  /** What the slots `gone` point to has been given back, in the order `freed`, each frame once, and what is still to be
      read is as it was. */
  ghost predicate TornDown(s: Space, m: Frames, u: set<nat>, gone: set<Pos>, freed: seq<nat>) {
    && Tree(s.mem, s.tables) && s.tables.Values <= s.used && Stored(m, s.tables)
    && (forall q :: q in gone ==> MarkedPos(s.mem, s.tables, q)) && Apart(s.mem, s.tables, gone)
    && FramesOf(s.mem, s.tables, gone) <= s.used && u == s.used - FramesOf(s.mem, s.tables, gone)
    && (forall p, j: Index :: p in s.tables && Child(p, j) !in gone ==>
      Slot(m, s.tables[p], j) == Slot(s.mem, s.tables[p], j))
    && Distinct(freed) && (forall g :: g in freed <==> g in FramesOf(s.mem, s.tables, gone))
  }

  /** The marked 2 MiB pages point to different frames, all in use, none of them a table. */
  ghost predicate MarkedApart(s: Space) {
    forall q :: MarkedPage(s.mem, s.tables, q) ==>
      && FrameAt(s.mem, s.tables, q) in s.used - s.tables.Values
      && (forall q' :: MarkedPage(s.mem, s.tables, q') && q' != q ==>
        FrameAt(s.mem, s.tables, q') != FrameAt(s.mem, s.tables, q))
  }

  lemma FramesGrow(m: Frames, t: Tables, gone: set<Pos>, q: Pos)
    ensures FramesOf(m, t, gone + {q}) == FramesOf(m, t, gone) + {FrameAt(m, t, q)}
  {
    hide FrameAt;
    forall g ensures g in FramesOf(m, t, gone + {q}) <==> g in FramesOf(m, t, gone) || g == FrameAt(m, t, q) {
      if g in FramesOf(m, t, gone) {
        var p :| p in gone && FrameAt(m, t, p) == g;
        assert p in gone + {q};
      }
      if g == FrameAt(m, t, q) { assert q in gone + {q}; }
    }
  }

  function ToggledEntry(e: Entry): Entry { e.(flags := Toggled(e.flags)) }

  lemma TearDownOne(s: Space, m: Frames, u: set<nat>, gone: set<Pos>, freed: seq<nat>, q: Pos)
    requires TornDown(s, m, u, gone, freed) && MarkedPos(s.mem, s.tables, q) && q !in gone
        && FrameAt(s.mem, s.tables, q) in u
    ensures var f := s.tables[q.parent];
            TornDown(s, SetSlot(m, f, q.index, ToggledEntry(Slot(m, f, q.index))),
                     u - {FrameAt(s.mem, s.tables, q)}, gone + {q}, freed + [FrameAt(s.mem, s.tables, q)])
  {
    hide Slot, SetSlot, Tree, Stored, Shape, SlotsOk, ToggledEntry, FrameAt;
    var t, p, i := s.tables, q.parent, q.index;
    TreeParts(s.mem, t);
    FramesGrow(s.mem, t, gone, q);
    OneSlotChanges(m, t, p, i, ToggledEntry(Slot(m, t[p], i)));
    var m1 := SetSlot(m, t[p], i, ToggledEntry(Slot(m, t[p], i)));
    forall r, j: Index | r in t && Child(r, j) !in gone + {q} ensures Slot(m1, t[r], j) == Slot(s.mem, t[r], j) {
      assert !(r == p && j == i);
    }
    forall x | x in gone ensures FrameAt(s.mem, t, x) in FramesOf(s.mem, t, gone) {}
    var f := FrameAt(s.mem, t, q);
    forall x, y | 0 <= x < y < |freed| + 1 ensures (freed + [f])[x] != (freed + [f])[y] {
      if y == |freed| { assert freed[x] in freed; }
    }
  }

  /** A frame that is not in use any more when its turn comes: some marked page is in the way. */
  lemma TearDownStuck(s: Space, m: Frames, u: set<nat>, gone: set<Pos>, freed: seq<nat>, q: Pos)
    requires TornDown(s, m, u, gone, freed) && MarkedPos(s.mem, s.tables, q) && q !in gone
        && FrameAt(s.mem, s.tables, q) !in u
    ensures !MarkedApart(s)
  {
    hide Slot, Tree, Stored, FrameAt, Distinct;
    var f := FrameAt(s.mem, s.tables, q);
    if q in s.tables { TableMarked(s.mem, s.tables, q); assert f in s.tables.Values; }
    if f in FramesOf(s.mem, s.tables, gone) {
      var q' :| q' in gone && FrameAt(s.mem, s.tables, q') == f;
      if q' in s.tables {
        TableMarked(s.mem, s.tables, q');
        assert f in s.tables.Values;
        TreeParts(s.mem, s.tables);
      }
    }
  }

  lemma TearDownStart(s: Space)
    requires Tree(s.mem, s.tables) && s.tables.Values <= s.used
    ensures TornDown(s, s.mem, s.used, {}, [])
  {
    hide Shape, SlotsOk, Slot;
  }

  /** What the loops read at a slot that has not been dealt with. */
  lemma TearDownReads(s: Space, m: Frames, u: set<nat>, gone: set<Pos>, freed: seq<nat>, p: Pos, i: Index)
    requires TornDown(s, m, u, gone, freed) && p in s.tables && Level(p) < 3 && Child(p, i) !in gone
    ensures var e, q := Slot(m, s.tables[p], i), Child(p, i);
            && (e.flags.stab <==> MarkedPos(s.mem, s.tables, q)) && e.frame == FrameAt(s.mem, s.tables, q)
            && (Level(p) < 2 ==> !e.flags.size
                                 && (e.flags.stab ==> q in s.tables && s.tables[q] == e.frame))
  {
    hide Slot, Distinct, Apart;
    SlotFacts(s.mem, s.tables, p, i);
    assert ZERO.flags.size == false;
  }

  /** What is freed for marked slots lies within the bitmap. */
  ghost predicate WithinBitmap(s: Space, a: Allocator) {
    forall q :: MarkedPos(s.mem, s.tables, q) ==> a.Within(MemoryBlock(FrameAt(s.mem, s.tables, q) * PAGE, PAGE))
  }

  // ----- the loops

  /** Gives back what a cursor points to. */
  method GiveBack(pager: Pager, a: Allocator, e: PointerTable, ghost s: Space, ghost p: Pos,
                  ghost gone: set<Pos>, ghost freed: seq<nat>)
    returns (r: Option<MemoryResult>)
    requires a.Ready() && WithinBitmap(s, a) && e.index < 512
    requires TornDown(s, pager.memory.frames, a.InUse(), gone, freed)
    requires MarkedPos(s.mem, s.tables, Child(p, e.index)) && Child(p, e.index) !in gone
    requires e.table == s.tables[p] && e.address == FrameAt(s.mem, s.tables, Child(p, e.index))
    modifies pager.memory, a.bitmap
    ensures a.Ready()
    ensures r.None? ==> TornDown(s, pager.memory.frames, a.InUse(), gone + {Child(p, e.index)}, freed + [e.address])
    ensures r.Some? ==> !MarkedApart(s)
  {
    hide TornDown, Used, Unused, FrameRange, Slot, SetSlot, FrameAt, MarkedApart;
    ghost var q := Child(p, e.index);
    if e.address in a.InUse() {
      TearDownOne(s, pager.memory.frames, a.InUse(), gone, freed, q);
    } else {
      TearDownStuck(s, pager.memory.frames, a.InUse(), gone, freed, q);
    }
    var d := pager.Deallocate(e, a);
    match d
    case Ok(_) => return None;
    case Err(error) => return Some(error);
  }

  /** The loop over the slots of one directory. */
  method ReleaseDirectory(pager: Pager, a: Allocator, pdt: PointerTable, i: Index,
                          j: Index, ghost s: Space, ghost freed0: seq<nat>)
    returns (r: Option<MemoryResult>, ghost freed: seq<nat>)
    requires a.Ready() && WithinBitmap(s, a) && P1(i) in s.tables && P2(i, j) in s.tables
    requires TornDown(s, pager.memory.frames, a.InUse(), Gone(s.mem, s.tables, i, j, 0), freed0)
    requires pdt.table == s.tables[P1(i)] && pdt.index == j && pdt.address == s.tables[P2(i, j)]
        && pdt.increment == PAGER_1GIB
    modifies pager.memory, a.bitmap
    ensures a.Ready()
    ensures r.None? ==> TornDown(s, pager.memory.frames, a.InUse(), Gone(s.mem, s.tables, i, j, 512), freed)
    ensures r.Some? ==> !MarkedApart(s)
  {
    hide TornDown, Used, Unused, FrameRange, Slot, Gone, MarkedPos, FrameAt, MarkedApart, WithinBitmap;
    freed := freed0;
    for k := 0 to 512
      invariant a.Ready() && TornDown(s, pager.memory.frames, a.InUse(), Gone(s.mem, s.tables, i, j, k), freed)
    {
      GoneTable(s.mem, s.tables, i, j, k);
      TearDownReads(s, pager.memory.frames, a.InUse(), Gone(s.mem, s.tables, i, j, k), freed, P1(i), j);
      TearDownReads(s, pager.memory.frames, a.InUse(), Gone(s.mem, s.tables, i, j, k), freed, P2(i, j), k);
      var pt := pager.Instantiate(pdt, k).value;
      if pager.Read(pt).flags.stab {
        var d := GiveBack(pager, a, pt, s, P2(i, j), Gone(s.mem, s.tables, i, j, k), freed);
        if d.Some? {
          return d, freed;
        }
        freed := freed + [pt.address];
      } else {
        assert Gone(s.mem, s.tables, i, j, k + 1) == Gone(s.mem, s.tables, i, j, k);
      }
    }
    return None, freed;
  }

  /** The loop over the directories of one second-level table. */
  method ReleasePdpt(pager: Pager, a: Allocator, pdpt: PointerTable, i: Index, ghost s: Space, ghost freed0: seq<nat>)
    returns (r: Option<MemoryResult>, ghost freed: seq<nat>)
    requires a.Ready() && WithinBitmap(s, a) && Tree(s.mem, s.tables) && Root in s.tables && P1(i) in s.tables
    requires TornDown(s, pager.memory.frames, a.InUse(), Gone(s.mem, s.tables, i, 0, 0), freed0)
    requires pdpt.table == s.tables[Root] && pdpt.index == i && pdpt.address == s.tables[P1(i)] && pdpt.increment == 0
    modifies pager.memory, a.bitmap
    ensures a.Ready()
    ensures r.None? ==> TornDown(s, pager.memory.frames, a.InUse(), Gone(s.mem, s.tables, i, 512, 0), freed)
    ensures r.Some? ==> !MarkedApart(s)
  {
    hide TornDown, Used, Unused, FrameRange, Slot, Gone, MarkedPos, FrameAt, MarkedApart, WithinBitmap, Tree;
    freed := freed0;
    for j := 0 to 512
      invariant a.Ready() && TornDown(s, pager.memory.frames, a.InUse(), Gone(s.mem, s.tables, i, j, 0), freed)
    {
      GoneTable(s.mem, s.tables, i, j, 0);
      TearDownReads(s, pager.memory.frames, a.InUse(), Gone(s.mem, s.tables, i, j, 0), freed, Root, i);
      TearDownReads(s, pager.memory.frames, a.InUse(), Gone(s.mem, s.tables, i, j, 0), freed, P1(i), j);
      GoneDirectory(s.mem, s.tables, i, j);
      var pdt := pager.Instantiate(pdpt, j).value;
      if !pager.Read(pdt).flags.stab {
        continue;
      }
      r, freed := ReleaseDirectory(pager, a, pdt, i, j, s, freed);
      if r.Some? {
        return;
      }
      r := GiveBack(pager, a, pdt, s, P1(i), Gone(s.mem, s.tables, i, j, 512), freed);
      if r.Some? {
        return;
      }
      freed := freed + [pdt.address];
    }
    return None, freed;
  }

  /** The outermost loop. */
  method ReleaseTables(pager: Pager, a: Allocator, ghost s: Space)
    returns (r: Option<MemoryResult>, ghost freed: seq<nat>)
    requires a.Ready() && WithinBitmap(s, a) && Tree(s.mem, s.tables) && Root in s.tables && s.tables[Root] == pager.cr3
    requires TornDown(s, pager.memory.frames, a.InUse(), {}, [])
    modifies pager.memory, a.bitmap
    ensures a.Ready()
    ensures r.None? ==> TornDown(s, pager.memory.frames, a.InUse(), Marked(s.mem, s.tables), freed)
    ensures r.Some? ==> !MarkedApart(s)
  {
    hide TornDown, Used, Unused, FrameRange, Slot, Gone, Marked, MarkedPos, FrameAt, MarkedApart, WithinBitmap, Tree;
    GoneEnds(s.mem, s.tables);
    freed := [];
    for i := 0 to 512
      invariant a.Ready() && TornDown(s, pager.memory.frames, a.InUse(), Gone(s.mem, s.tables, i, 0, 0), freed)
    {
      GoneTable(s.mem, s.tables, i, 0, 0);
      TearDownReads(s, pager.memory.frames, a.InUse(), Gone(s.mem, s.tables, i, 0, 0), freed, Root, i);
      GonePdpt(s.mem, s.tables, i);
      var pdpt := pager.Top(i, pager.Read(PointerTable(pager.cr3, i, NO_FLAGS, 0, 0)).flags);
      if !pdpt.flags.stab {
        continue;
      }
      r, freed := ReleasePdpt(pager, a, pdpt, i, s, freed);
      if r.Some? {
        return;
      }
      r := GiveBack(pager, a, pdpt, s, Root, Gone(s.mem, s.tables, i, 512, 0), freed);
      if r.Some? {
        return;
      }
      freed := freed + [pdpt.address];
    }
    return None, freed;
  }

  /** Gives back every table and every marked 2 MiB page, and then the root. `freed` lists the frames in the order they
      were freed. */
  method Release(pager: Pager, a: Allocator) returns (r: Option<MemoryResult>, ghost freed: seq<nat>)
    requires pager.Uses(a)
    requires forall q :: MarkedPage(pager.memory.frames, pager.tables, q) ==>
               a.Within(MemoryBlock(FrameAt(pager.memory.frames, pager.tables, q) * PAGE, PAGE))
    modifies pager.memory, a.bitmap
    ensures a.Ready()
    ensures r.None? <==> MarkedApart(old(pager.Now(a)))
    ensures var m, t := old(pager.memory.frames), pager.tables;
            && (r.None? ==> && a.InUse() == old(a.InUse()) - t.Values - FramesOf(m, t, Marked(m, t))
                            && Distinct(freed)
                            && forall f :: f in freed <==> f in t.Values + FramesOf(m, t, Marked(m, t)))
            && (NoMarkedHuge(m, t) <==> r.None? && a.InUse() == old(a.InUse()) - t.Values)
            && (NoMarkedHuge(m, t) ==> forall f :: f in freed <==> f in t.Values)
  {
    hide TornDown, Used, Unused, FrameRange, Slot, Marked, MarkedPos,
         MarkedPage, FrameAt, MarkedApart, NoMarkedHuge, Tree, Distinct;
    ghost var s := pager.Now(a);
    TreeParts(s.mem, s.tables);
    AllWithin(pager, a);
    TearDownStart(s);
    r, freed := ReleaseTables(pager, a, s);
    if r.Some? {
      StuckIsMarked(s);
      return;
    }
    ghost var before, u := a.bitmap[..], a.InUse();
    TearDownRoot(s, pager.memory.frames, u, freed);
    var e := a.Free(MemoryBlock(pager.cr3 * PAGE, 0x1000));
    FreeOneFrame(before, a.addend, pager.cr3, e, a.bitmap[..]);
    freed := freed + [pager.cr3];
    match e
    case Ok(_) => return None, freed;
    case Err(error) => return Some(error), freed;
  }

  lemma AllWithin(pager: Pager, a: Allocator)
    requires pager.Uses(a)
    requires forall q :: MarkedPage(pager.memory.frames, pager.tables, q) ==>
               a.Within(MemoryBlock(FrameAt(pager.memory.frames, pager.tables, q) * PAGE, PAGE))
    ensures WithinBitmap(pager.Now(a), a) && a.Within(MemoryBlock(pager.cr3 * PAGE, PAGE))
  {
    hide Tree, FrameAt, Used, MarkedPos, a.Within;
    TreeParts(pager.memory.frames, pager.tables);
    forall q | MarkedPos(pager.memory.frames, pager.tables, q)
      ensures a.Within(MemoryBlock(FrameAt(pager.memory.frames, pager.tables, q) * PAGE, PAGE))
    {
      if q in pager.tables {
        MarkedIsNoRoot(pager.memory.frames, pager.tables, q);
        TableMarked(pager.memory.frames, pager.tables, q);
        assert pager.tables[q] in pager.tables.Values;
        a.InUseWithin(pager.tables[q]);
      }
    }
    assert pager.tables[Root] in pager.tables.Values;
    a.InUseWithin(pager.cr3);
  }

  lemma MarkedIsNoRoot(m: Frames, t: Tables, q: Pos)
    requires MarkedPos(m, t, q)
    ensures q != Root
  {
  }

  lemma StuckIsMarked(s: Space)
    requires Tree(s.mem, s.tables) && !MarkedApart(s)
    ensures !NoMarkedHuge(s.mem, s.tables)
  {
    hide Tree, FrameAt, NoMarkedHuge;
    NoMarkedPage(s.mem, s.tables);
  }

  /** All that is left to give back is the root: it is in use exactly when the marked pages are apart, and what is left
      in use then tells whether there were any. */
  lemma TearDownRoot(s: Space, m: Frames, u: set<nat>, freed: seq<nat>)
    requires Root in s.tables && TornDown(s, m, u, Marked(s.mem, s.tables), freed)
    ensures s.tables[Root] in u <==> MarkedApart(s)
    ensures var f, all := s.tables[Root], FramesOf(s.mem, s.tables, Marked(s.mem, s.tables));
            && u - {f} == s.used - s.tables.Values - all
            && (f in u ==> Distinct(freed + [f]) && forall g :: g in freed + [f] <==> g in s.tables.Values + all)
            && (NoMarkedHuge(s.mem, s.tables) <==> f in u && u - {f} == s.used - s.tables.Values)
            && (NoMarkedHuge(s.mem, s.tables) ==> all <= s.tables.Values)
  {
    hide Slot, Stored, SlotsOk, FrameAt, Shape, MarkedPos, NoMarkedHuge, Tree;
    var t, f, marked := s.tables, s.tables[Root], Marked(s.mem, s.tables);
    var all := FramesOf(s.mem, t, marked);
    TreeParts(s.mem, t);
    NoMarkedPage(s.mem, t);
    forall q | q in t && q != Root ensures q in marked && FrameAt(s.mem, t, q) == t[q] && t[q] in all {
      TableMarked(s.mem, t, q);
      MarkedInSlots(s.mem, t, q);
    }
    assert f in t.Values;
    forall g | g in t.Values ensures g == f || g in all {
      var q :| q in t && t[q] == g;
    }
    RootApart(s, m, u, freed);
    forall q | MarkedPage(s.mem, t, q)
      ensures q in marked && FrameAt(s.mem, t, q) in all { MarkedInSlots(s.mem, t, q); }
    forall g | g in all ensures g in t.Values || exists q :: MarkedPage(s.mem, t, q) && FrameAt(s.mem, t, q) == g {
      var q :| q in marked && FrameAt(s.mem, t, q) == g;
      if q in t {
        MarkedIsNoRoot(s.mem, t, q);
        TableMarked(s.mem, t, q);
      } else {
        assert MarkedPage(s.mem, t, q);
      }
    }
    if f in u {
      forall x, y | 0 <= x < y < |freed| + 1 ensures (freed + [f])[x] != (freed + [f])[y] {
        if y == |freed| { assert freed[x] in freed; }
      }
    }
  }

  lemma RootApart(s: Space, m: Frames, u: set<nat>, freed: seq<nat>)
    requires Root in s.tables && TornDown(s, m, u, Marked(s.mem, s.tables), freed)
    ensures s.tables[Root] in u <==> MarkedApart(s)
  {
    hide Slot, Stored, FrameAt, MarkedPos, Distinct;
    var t, f, marked := s.tables, s.tables[Root], Marked(s.mem, s.tables);
    TreeParts(s.mem, t);
    assert f in t.Values;
    if f in u {
      forall q | MarkedPage(s.mem, t, q)
        ensures FrameAt(s.mem, t, q) in s.used - t.Values
        ensures forall q' :: MarkedPage(s.mem, t, q') && FrameAt(s.mem, t, q') == FrameAt(s.mem, t, q) ==> q' == q
      {
        MarkedInSlots(s.mem, t, q);
        var g := FrameAt(s.mem, t, q);
        assert g in FramesOf(s.mem, t, marked);
        if g in t.Values {
          var p :| p in t && t[p] == g;
          TableMarked(s.mem, t, p);
          MarkedInSlots(s.mem, t, p);
          assert false;
        }
        forall q' | MarkedPage(s.mem, t, q') && FrameAt(s.mem, t, q') == g
          ensures q' == q { MarkedInSlots(s.mem, t, q'); }
      }
    } else {
      var q :| q in marked && FrameAt(s.mem, t, q) == f;
      if q in t {
        MarkedIsNoRoot(s.mem, t, q);
        TableMarked(s.mem, t, q);
        assert false;
      }
    }
  }
}
