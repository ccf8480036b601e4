/** The single writes the pager makes to its tables: each keeps the tree, and what each does to the
    hardware walk of every address. */
module PagingSteps {
  import opened Memory
  import opened Paging

  /** The two memories hold the same in every slot of every table, slot `i` of table `p` left out. */
  ghost predicate SameElsewhere(m0: Frames, m1: Frames, tables: Tables, p: Pos, i: Index) {
    forall q, j: Index :: q in tables && !(q == p && j == i) ==> Slot(m1, tables[q], j) == Slot(m0, tables[q], j)
  }

  /** Writing one slot, and filling a frame that is not a table, changes no other slot. */
  lemma OneSlotChanges(mem: Frames, tables: Tables, p: Pos, i: Index, e: Entry)
    requires Shape(tables) && Stored(mem, tables) && p in tables
    ensures var m1 := SetSlot(mem, tables[p], i, e);
            Stored(m1, tables) && SameElsewhere(mem, m1, tables, p, i) && Slot(m1, tables[p], i) == e
  {
  }

  lemma FreshFrameChangesNothing(mem: Frames, tables: Tables, f: nat, table: seq<Entry>)
    requires Stored(mem, tables) && f !in tables.Values
    ensures var m1 := mem[f := table];
            && Stored(m1, tables)
            && forall q, j: Index :: q in tables ==> Slot(m1, tables[q], j) == Slot(mem, tables[q], j)
  {
    forall q | q in tables ensures tables[q] != f { assert tables[q] in tables.Values; }
  }

  lemma ShapeGrows(tables: Tables, p: Pos, i: Index, f: nat)
    requires Shape(tables) && p in tables && Level(p) < 3 && f !in tables.Values
    ensures Shape(tables[Child(p, i) := f])
  {
    forall q | q in tables ensures tables[q] != f { assert tables[q] in tables.Values; }
  }

  /** Filling frame `f` and then pointing slot `i` of table `p` at it. */
  function Hang(mem: Frames, tables: Tables, p: Pos, i: Index, f: nat, table: seq<Entry>, flags: Flags): Frames
    requires p in tables
  {
    SetSlot(mem[f := table], tables[p], i, Entry(f, flags))
  }

  lemma HangSlots(mem: Frames, tables: Tables, p: Pos, i: Index, f: nat, table: seq<Entry>, flags: Flags)
    requires Shape(tables) && Stored(mem, tables) && p in tables && f !in tables.Values && |table| == 512
    ensures tables[p] != f
    ensures var m1 := Hang(mem, tables, p, i, f, table, flags);
            && Stored(m1, tables[Child(p, i) := f])
            && SameElsewhere(mem, m1, tables, p, i)
            && Slot(m1, tables[p], i) == Entry(f, flags)
            && forall j: Index :: Slot(m1, f, j) == table[j]
  {
    FreshFrameChangesNothing(mem, tables, f, table);
    assert tables[p] in tables.Values;
    OneSlotChanges(mem[f := table], tables, p, i, Entry(f, flags));
  }

  // ----- hanging an empty table into an empty slot

  lemma NewTableTree(mem: Frames, tables: Tables, p: Pos, i: Index, f: nat, flags: Flags)
    requires Tree(mem, tables) && p in tables && Level(p) < 3 && f !in tables.Values
    requires Slot(mem, tables[p], i) == ZERO && flags.stab && !flags.size
    ensures tables[p] != f
    ensures Tree(Hang(mem, tables, p, i, f, EmptyTable(), flags), tables[Child(p, i) := f])
  {
    hide Shape, Stored, Hang;
    HangSlots(mem, tables, p, i, f, EmptyTable(), flags);
    ShapeGrows(tables, p, i, f);
    var m1, t1 := Hang(mem, tables, p, i, f, EmptyTable(), flags), tables[Child(p, i) := f];
    EmptyTableIsZero();
    NoGrandchildren(tables, mem, p, i);
    forall q, j: Index | q in t1 && Level(q) < 3 ensures SlotOk(t1, q, j, Slot(m1, t1[q], j)) {
      if q != Child(p, i) {
        assert SlotOk(tables, q, j, Slot(mem, tables[q], j));
      }
    }
  }

  lemma EmptyTableIsZero()
    ensures |EmptyTable()| == 512 && forall j: Index :: EmptyTable()[j] == ZERO
  {
  }

  lemma NoGrandchildren(tables: Tables, mem: Frames, p: Pos, i: Index)
    requires Shape(tables) && SlotsOk(mem, tables) && p in tables && Level(p) < 3
    requires Slot(mem, tables[p], i) == ZERO || Slot(mem, tables[p], i).flags.size
    ensures Child(p, i) !in tables
    ensures forall j :: Child(Child(p, i), j) !in tables
  {
    assert SlotOk(tables, p, i, Slot(mem, tables[p], i));
  }

  lemma NewTableWalk(mem: Frames, tables: Tables, p: Pos, i: Index, f: nat, flags: Flags)
    requires Tree(mem, tables) && p in tables && Level(p) < 3 && f !in tables.Values
    requires Slot(mem, tables[p], i) == ZERO && flags.stab && !flags.size
    ensures SameWalk(mem, Hang(mem, tables, p, i, f, EmptyTable(), flags), tables[Root])
  {
    hide *;
    NewTableTree(mem, tables, p, i, f, flags);
    TreeParts(mem, tables);
    EmptyTableIsZero();
    HangSlots(mem, tables, p, i, f, EmptyTable(), flags);
    var m1, t1 := Hang(mem, tables, p, i, f, EmptyTable(), flags), tables[Child(p, i) := f];
    NoGrandchildren(tables, mem, p, i);
    forall a ensures Walk(m1, tables[Root], a) == Walk(mem, tables[Root], a) {
      WalkIsWalkFrom(mem, tables, a);
      WalkIsWalkFrom(m1, t1, a);
      NewTableWalkFrom(mem, m1, tables, p, i, f, Root, a);
    }
    SameWalkIntro(mem, m1, tables[Root]);
  }

  lemma TreeParts(mem: Frames, tables: Tables)
    requires Tree(mem, tables)
    ensures Shape(tables) && Stored(mem, tables) && SlotsOk(mem, tables) && Root in tables
  {
  }

  lemma SameWalkIntro(m0: Frames, m1: Frames, root: nat)
    requires forall a :: Walk(m1, root, a) == Walk(m0, root, a)
    ensures SameWalk(m0, m1, root)
  {
  }

  lemma {:induction false} NewTableWalkFrom(m0: Frames, m1: Frames, tables: Tables,
                                            p: Pos, i: Index, f: nat, q: Pos, a: Address)
    requires p in tables && q in tables && Child(p, i) !in tables && Level(p) < 3
    requires SameElsewhere(m0, m1, tables, p, i)
    requires Slot(m0, tables[p], i) == ZERO && !Slot(m1, tables[p], i).flags.size
    requires forall j: Index :: Slot(m1, f, j) == ZERO
    ensures WalkFrom(m1, tables[Child(p, i) := f], q, a) == WalkFrom(m0, tables, q, a)
    decreases 4 - Level(q)
  {
    hide Slot;
    var j := IndexAt(a, Level(q));
    var t1 := tables[Child(p, i) := f];
    if q == p && j == i {
      assert WalkFrom(m1, t1, Child(p, i), a) == None;
    } else if Level(q) < 3 && Child(q, j) in tables {
      NewTableWalkFrom(m0, m1, tables, p, i, f, Child(q, j), a);
    }
  }

  // ----- paths a write does not touch

  /** The tables on the path of `a`, from level `from` on, and their slots on that path, are the same. */
  ghost predicate SamePath(m0: Frames, t0: Tables, m1: Frames, t1: Tables, a: Address, from: nat) {
    forall k :: from <= k <= 3 ==>
      var q := TablePos(a, k);
      && (q in t0 <==> q in t1)
      && (q in t0 ==> t1[q] == t0[q] && Slot(m1, t1[q], IndexAt(a, k)) == Slot(m0, t0[q], IndexAt(a, k)))
  }

  lemma {:induction false} SamePathSameWalk(m0: Frames, t0: Tables, m1: Frames, t1: Tables, a: Address, from: nat)
    requires from <= 3 && SamePath(m0, t0, m1, t1, a, from) && TablePos(a, from) in t0 && TablePos(a, from) in t1
    ensures WalkFrom(m1, t1, TablePos(a, from), a) == WalkFrom(m0, t0, TablePos(a, from), a)
    decreases 3 - from
  {
    hide Slot;
    var q := TablePos(a, from);
    assert t1[q] == t0[q];
    if from < 3 {
      assert TablePos(a, from + 1) == Child(q, IndexAt(a, from));
      if Child(q, IndexAt(a, from)) in t0 {
        SamePathSameWalk(m0, t0, m1, t1, a, from + 1);
      }
    }
  }

  // ----- granting write permission in a slot that leads to a table

  function GrantWrite(e: Entry): Entry { e.(flags := e.flags.(rw := true)) }

  lemma GrantWriteTree(mem: Frames, tables: Tables, p: Pos, i: Index)
    requires Tree(mem, tables) && p in tables && Level(p) < 3 && Slot(mem, tables[p], i) != ZERO
    ensures Tree(SetSlot(mem, tables[p], i, GrantWrite(Slot(mem, tables[p], i))), tables)
  {
    hide Slot, SetSlot, Shape, Stored;
    var m1 := SetSlot(mem, tables[p], i, GrantWrite(Slot(mem, tables[p], i)));
    OneSlotChanges(mem, tables, p, i, GrantWrite(Slot(mem, tables[p], i)));
    forall q, j: Index | q in tables && Level(q) < 3 ensures SlotOk(tables, q, j, Slot(m1, tables[q], j)) {
      assert SlotOk(tables, q, j, Slot(mem, tables[q], j));
    }
  }

  lemma GrantWriteWalk(mem: Frames, tables: Tables, p: Pos, i: Index)
    requires Tree(mem, tables) && p in tables && Level(p) < 3 && Slot(mem, tables[p], i) != ZERO
    ensures SameWalk(mem, SetSlot(mem, tables[p], i, GrantWrite(Slot(mem, tables[p], i))), tables[Root])
  {
    hide *;
    var m1 := SetSlot(mem, tables[p], i, GrantWrite(Slot(mem, tables[p], i)));
    GrantWriteTree(mem, tables, p, i);
    TreeParts(mem, tables);
    OneSlotChanges(mem, tables, p, i, GrantWrite(Slot(mem, tables[p], i)));
    forall a ensures Walk(m1, tables[Root], a) == Walk(mem, tables[Root], a) {
      WalkIsWalkFrom(mem, tables, a);
      WalkIsWalkFrom(m1, tables, a);
      GrantWriteWalkFrom(mem, m1, tables, p, i, Root, a);
    }
    SameWalkIntro(mem, m1, tables[Root]);
  }

  lemma {:induction false} GrantWriteWalkFrom(m0: Frames, m1: Frames, tables: Tables,
                                              p: Pos, i: Index, q: Pos, a: Address)
    requires p in tables && q in tables && SameElsewhere(m0, m1, tables, p, i)
    requires Slot(m1, tables[p], i) == GrantWrite(Slot(m0, tables[p], i))
    ensures WalkFrom(m1, tables, q, a) == WalkFrom(m0, tables, q, a)
    decreases 4 - Level(q)
  {
    hide Slot;
    var j := IndexAt(a, Level(q));
    if Level(q) < 3 && Child(q, j) in tables {
      GrantWriteWalkFrom(m0, m1, tables, p, i, Child(q, j), a);
    }
  }

  // ----- splitting a 2 MiB page into 512 small ones

  function SmallPages(base: nat, flags: Flags): seq<Entry> {
    seq(512, k requires 0 <= k < 512 => Entry(base + k, flags))
  }

  function Unfolded(mem: Frames, tables: Tables, p: Pos, i: Index, f: nat): Frames
    requires p in tables
  {
    var e := Slot(mem, tables[p], i);
    var flags := e.flags.(size := false);
    Hang(mem, tables, p, i, f, SmallPages(e.frame, flags), flags.(stab := true))
  }

  lemma UnfoldTree(mem: Frames, tables: Tables, p: Pos, i: Index, f: nat)
    requires Tree(mem, tables) && p in tables && Level(p) < 3 && f !in tables.Values
    requires Slot(mem, tables[p], i).flags.size
    ensures Level(p) == 2 && Child(p, i) !in tables && Slot(mem, tables[p], i).frame % 512 == 0
    ensures Tree(Unfolded(mem, tables, p, i, f), tables[Child(p, i) := f])
  {
    hide Shape, Stored, Hang, Slot, SmallPages;
    var e := Slot(mem, tables[p], i);
    var flags := e.flags.(size := false);
    assert |SmallPages(e.frame, flags)| == 512 by { SmallPagesAre(e.frame, flags); }
    HangSlots(mem, tables, p, i, f, SmallPages(e.frame, flags), flags.(stab := true));
    assert SlotOk(tables, p, i, e);
    ShapeGrows(tables, p, i, f);
    var m1, t1 := Unfolded(mem, tables, p, i, f), tables[Child(p, i) := f];
    forall q, j: Index | q in t1 && Level(q) < 3 ensures SlotOk(t1, q, j, Slot(m1, t1[q], j)) {
      assert SlotOk(tables, q, j, Slot(mem, tables[q], j));
    }
  }

  lemma SmallPagesAre(base: nat, flags: Flags)
    ensures |SmallPages(base, flags)| == 512
    ensures forall j: Index :: SmallPages(base, flags)[j] == Entry(base + j, flags)
  {
  }

  lemma UnfoldWalk(mem: Frames, tables: Tables, p: Pos, i: Index, f: nat)
    requires Tree(mem, tables) && p in tables && Level(p) < 3 && f !in tables.Values
    requires Slot(mem, tables[p], i).flags.size
    ensures SameWalk(mem, Unfolded(mem, tables, p, i, f), tables[Root])
  {
    hide *;
    UnfoldTree(mem, tables, p, i, f);
    TreeParts(mem, tables);
    var m1, t1 := Unfolded(mem, tables, p, i, f), tables[Child(p, i) := f];
    UnfoldSlots(mem, tables, p, i, f);
    forall a ensures Walk(m1, tables[Root], a) == Walk(mem, tables[Root], a) {
      WalkIsWalkFrom(mem, tables, a);
      WalkIsWalkFrom(m1, t1, a);
      UnfoldWalkFrom(mem, m1, tables, p, i, f, Root, a);
    }
    SameWalkIntro(mem, m1, tables[Root]);
  }

  lemma UnfoldSlots(mem: Frames, tables: Tables, p: Pos, i: Index, f: nat)
    requires Shape(tables) && Stored(mem, tables) && p in tables && f !in tables.Values
    ensures var m1, e := Unfolded(mem, tables, p, i, f), Slot(mem, tables[p], i);
            && SameElsewhere(mem, m1, tables, p, i)
            && Slot(m1, tables[p], i) == Entry(f, e.flags.(size := false, stab := true))
            && forall j: Index :: Slot(m1, f, j) == Entry(e.frame + j, e.flags.(size := false))
  {
    hide Shape, Stored, Hang, Slot, SmallPages;
    var e := Slot(mem, tables[p], i);
    var flags := e.flags.(size := false);
    SmallPagesAre(e.frame, flags);
    HangSlots(mem, tables, p, i, f, SmallPages(e.frame, flags), flags.(stab := true));
  }

  lemma {:induction false} UnfoldWalkFrom(m0: Frames, m1: Frames, tables: Tables,
                                          p: Pos, i: Index, f: nat, q: Pos, a: Address)
    requires p in tables && q in tables && Child(p, i) !in tables && Level(p) == 2
    requires SameElsewhere(m0, m1, tables, p, i) && Slot(m0, tables[p], i).flags.size
    requires var e := Slot(m0, tables[p], i);
             && Slot(m1, tables[p], i) == Entry(f, e.flags.(size := false, stab := true))
             && forall j: Index :: Slot(m1, f, j) == Entry(e.frame + j, e.flags.(size := false))
    ensures WalkFrom(m1, tables[Child(p, i) := f], q, a) == WalkFrom(m0, tables, q, a)
    decreases 4 - Level(q)
  {
    hide Slot;
    var j := IndexAt(a, Level(q));
    var t1 := tables[Child(p, i) := f];
    if q == p && j == i {
      var e := Slot(m0, tables[p], i);
      assert Slot(m1, f, a.page) == Entry(e.frame + a.page, e.flags.(size := false));
      assert WalkFrom(m1, t1, Child(p, i), a) == if e.flags.present then Some(e.frame + a.page) else None;
    } else if Level(q) < 3 && Child(q, j) in tables {
      UnfoldWalkFrom(m0, m1, tables, p, i, f, Child(q, j), a);
    }
  }

  // ----- writing one page entry

  /** A page entry is reached exactly when the entries above it are present. */
  lemma {:induction false} LeafReached(m0: Frames, m1: Frames, tables: Tables, at: Address, level: nat)
    requires level <= 3 && Tree(m0, tables) && TablePos(at, 3) in tables && TablePos(at, level) in tables
    requires SameElsewhere(m0, m1, tables, TablePos(at, 3), at.page)
    ensures WalkFrom(m1, tables, TablePos(at, level), at) ==
            var e := Slot(m1, tables[TablePos(at, 3)], at.page);
            if e.flags.present && Open(m0, tables[TablePos(at, level)], level, 2, at) then Some(e.frame) else None
    decreases 3 - level
  {
    hide Slot, Shape, Stored;
    var p := TablePos(at, level);
    if level == 3 {
      WalkFromLeaf(m1, tables, at);
    } else {
      assert TablePos(at, level + 1) == Child(p, IndexAt(at, level));
      PathInTables(tables, m0, at, level + 1);
      assert SlotOk(tables, p, IndexAt(at, level), Slot(m0, tables[p], IndexAt(at, level)));
      LeafReached(m0, m1, tables, at, level + 1);
    }
  }

  lemma {:induction false} PathInTables(tables: Tables, mem: Frames, at: Address, level: nat)
    requires Tree(mem, tables) && level <= 3 && TablePos(at, 3) in tables
    ensures TablePos(at, level) in tables
    decreases 3 - level
  {
    if level < 3 {
      PathInTables(tables, mem, at, level + 1);
    }
  }

  lemma WriteLeafTree(mem: Frames, tables: Tables, at: Address, e: Entry)
    requires Tree(mem, tables) && TablePos(at, 3) in tables
    ensures Tree(SetSlot(mem, tables[TablePos(at, 3)], at.page, e), tables)
  {
    hide Slot, SetSlot, Shape, Stored, TablePos;
    var p := TablePos(at, 3);
    var m1 := SetSlot(mem, tables[p], at.page, e);
    OneSlotChanges(mem, tables, p, at.page, e);
    forall q, j: Index | q in tables && Level(q) < 3 ensures SlotOk(tables, q, j, Slot(m1, tables[q], j)) {
      assert SlotOk(tables, q, j, Slot(mem, tables[q], j));
    }
  }

  lemma WriteLeafWalk(mem: Frames, tables: Tables, at: Address, e: Entry)
    requires Tree(mem, tables) && TablePos(at, 3) in tables
    ensures PointUpdate(mem, SetSlot(mem, tables[TablePos(at, 3)], at.page, e), tables[Root], at,
                        if e.flags.present && PathOpen(mem, tables[Root], at) then Some(e.frame) else None)
  {
    hide *;
    TreeParts(mem, tables);
    var p := TablePos(at, 3);
    var m1 := SetSlot(mem, tables[p], at.page, e);
    var target := if e.flags.present && PathOpen(mem, tables[Root], at) then Some(e.frame) else None;
    WriteLeafTree(mem, tables, at, e);
    OneSlotChanges(mem, tables, p, at.page, e);
    forall a ensures Walk(m1, tables[Root], a) == if a == at then target else Walk(mem, tables[Root], a) {
      WalkIsWalkFrom(mem, tables, a);
      WalkIsWalkFrom(m1, tables, a);
      RootPos(a);
      if a == at {
        LeafReached(mem, m1, tables, at, 0);
        PathOpenIsOpen(mem, tables[Root], at);
      } else {
        OtherLeafPath(mem, m1, tables, at, a);
        SamePathSameWalk(mem, tables, m1, tables, a, 0);
      }
    }
    PointUpdateIntro(mem, m1, tables[Root], at, target);
  }

  lemma RootPos(a: Address)
    ensures TablePos(a, 0) == Root
  {
  }

  lemma PathOpenIsOpen(mem: Frames, root: nat, a: Address)
    ensures PathOpen(mem, root, a) == Open(mem, root, 0, 2, a)
    ensures UpperOpen(mem, root, a) == Open(mem, root, 0, 1, a)
  {
  }

  lemma PointUpdateIntro(m0: Frames, m1: Frames, root: nat, at: Address, target: Option<nat>)
    requires forall a :: Walk(m1, root, a) == if a == at then target else Walk(m0, root, a)
    ensures PointUpdate(m0, m1, root, at, target)
  {
  }

  lemma OtherLeafPath(m0: Frames, m1: Frames, tables: Tables, at: Address, a: Address)
    requires a != at && TablePos(at, 3) in tables
    requires SameElsewhere(m0, m1, tables, TablePos(at, 3), at.page)
    ensures SamePath(m0, tables, m1, tables, a, 0)
  {
    hide Slot, TablePos;
    assert TablePos(a, 3) == TablePos(at, 3) ==> a.page != at.page by { SamePosSameIndices(a, at); }
    forall k | 0 <= k <= 3
      ensures var q := TablePos(a, k);
              q in tables ==> Slot(m1, tables[q], IndexAt(a, k)) == Slot(m0, tables[q], IndexAt(a, k))
    {
      var q := TablePos(a, k);
      assert Level(q) == k;
      assert q == TablePos(at, 3) ==> IndexAt(a, k) != at.page;
    }
  }

  lemma SamePosSameIndices(a: Address, b: Address)
    ensures TablePos(a, 3) == TablePos(b, 3) <==> a.pdp == b.pdp && a.pd == b.pd && a.pt == b.pt
  {
    assert TablePos(a, 3) == Child(Child(Child(Root, a.pdp), a.pd), a.pt) by { TablePosAre(a); }
    assert TablePos(b, 3) == Child(Child(Child(Root, b.pdp), b.pd), b.pt) by { TablePosAre(b); }
  }

  lemma TablePosAre(a: Address)
    ensures TablePos(a, 0) == Root && TablePos(a, 1) == Child(Root, a.pdp)
    ensures TablePos(a, 2) == Child(Child(Root, a.pdp), a.pd)
    ensures TablePos(a, 3) == Child(Child(Child(Root, a.pdp), a.pd), a.pt)
  {
    assert TablePos(a, 1) == Child(TablePos(a, 0), IndexAt(a, 0));
    assert TablePos(a, 2) == Child(TablePos(a, 1), IndexAt(a, 1));
    assert TablePos(a, 3) == Child(TablePos(a, 2), IndexAt(a, 2));
  }

  // ----- which paths stay open

  /** A table below an empty slot opens no path. It closes those that go through it, unless it is present. */
  lemma {:induction false} NewTableOpen(m0: Frames, m1: Frames, tables: Tables, p: Pos,
                                        i: Index, f: nat, a: Address, level: nat, stop: nat)
    requires Tree(m0, tables) && p in tables && level <= 3 && TablePos(a, level) in tables && stop <= 2
    requires SameElsewhere(m0, m1, tables, p, i)
    requires Slot(m0, tables[p], i) == ZERO && Slot(m1, tables[p], i).frame == f && Slot(m1, tables[p], i) != ZERO
    requires forall j: Index :: Slot(m1, f, j) == ZERO
    ensures var e := Slot(m1, tables[p], i);
            var through := level <= Level(p) <= stop && TablePos(a, Level(p) + 1) == Child(p, i);
            Open(m1, tables[TablePos(a, level)], level, stop, a)
            <==> Open(m0, tables[TablePos(a, level)], level, stop, a) && (e.flags.present || !through)
    decreases 4 - level
  {
    hide Slot, Shape, Stored, TablePos;
    TreeParts(m0, tables);
    NextPos(a, level);
    NextPos(a, Level(p));
    var q, j := TablePos(a, level), IndexAt(a, level);
    if level <= stop && !(q == p && j == i) {
      assert SlotOk(tables, q, j, Slot(m0, tables[q], j));
      if Slot(m0, tables[q], j) == ZERO {
        if level < Level(p) && TablePos(a, Level(p)) in tables { PathPrefix(tables, a, Level(p), level + 1); }
      } else if level < stop {
        NewTableOpen(m0, m1, tables, p, i, f, a, level + 1, stop);
      }
    }
  }

  lemma NextPos(a: Address, level: nat)
    ensures TablePos(a, level + 1) == Child(TablePos(a, level), IndexAt(a, level)) && Level(TablePos(a, level)) == level
  {
  }

  /** The tables of a path are there from the root on. */
  lemma {:induction false} PathPrefix(tables: Tables, a: Address, k: nat, level: nat)
    requires Shape(tables) && level <= k && TablePos(a, k) in tables
    ensures TablePos(a, level) in tables
  {
    if level < k {
      NextPos(a, k - 1);
      PathPrefix(tables, a, k - 1, level);
    }
  }

  /** A change of one slot that keeps it non-empty, its frame, and its present flag opens and closes no path. */
  lemma {:induction false} SameKindOpen(m0: Frames, m1: Frames, tables: Tables, p: Pos,
                                        i: Index, a: Address, level: nat, stop: nat)
    requires Tree(m0, tables) && p in tables && level <= 3 && TablePos(a, level) in tables && stop <= 2
    requires SameElsewhere(m0, m1, tables, p, i)
    requires Level(p) <= stop ==> && Slot(m0, tables[p], i) != ZERO && Slot(m1, tables[p], i) != ZERO
                                  && Slot(m1, tables[p], i).flags.present == Slot(m0, tables[p], i).flags.present
    requires Level(p) < stop ==> Slot(m1, tables[p], i).frame == Slot(m0, tables[p], i).frame
    ensures Open(m1, tables[TablePos(a, level)], level, stop, a) == Open(m0, tables[TablePos(a, level)], level, stop, a)
    decreases 4 - level
  {
    hide Slot, Shape, Stored;
    var q, j := TablePos(a, level), IndexAt(a, level);
    if level <= stop && Slot(m0, tables[q], j) != ZERO {
      assert SlotOk(tables, q, j, Slot(m0, tables[q], j));
      assert TablePos(a, level + 1) == Child(q, j);
      if level < stop {
        SameKindOpen(m0, m1, tables, p, i, a, level + 1, stop);
      }
    }
  }

  /** All slots of all tables are the same. */
  ghost predicate SameSlots(m0: Frames, m1: Frames, tables: Tables) {
    forall q, j: Index :: q in tables ==> Slot(m1, tables[q], j) == Slot(m0, tables[q], j)
  }

  lemma {:induction false} SameSlotsOpen(m0: Frames, m1: Frames, tables: Tables, a: Address, level: nat, stop: nat)
    requires Tree(m0, tables) && level <= 3 && TablePos(a, level) in tables && stop <= 2 && SameSlots(m0, m1, tables)
    ensures Open(m1, tables[TablePos(a, level)], level, stop, a) == Open(m0, tables[TablePos(a, level)], level, stop, a)
    decreases 4 - level
  {
    hide Slot, Shape, Stored;
    var q, j := TablePos(a, level), IndexAt(a, level);
    if level <= stop && Slot(m0, tables[q], j) != ZERO {
      assert SlotOk(tables, q, j, Slot(m0, tables[q], j));
      assert TablePos(a, level + 1) == Child(q, j);
      if level < stop {
        SameSlotsOpen(m0, m1, tables, a, level + 1, stop);
      }
    }
  }

  // ----- putting a 2 MiB page into a directory slot, in place of whatever was there

  ghost predicate InSlot(at: Address, a: Address) {
    a.pdp == at.pdp && a.pd == at.pd && a.pt == at.pt
  }

  /** The 512 pages of the slot of `at` translate to `frame + page` (or not at all), the rest as before. */
  ghost predicate SlotUpdate(m0: Frames, m1: Frames, root: nat, at: Address, frame: Option<nat>) {
    forall a :: Walk(m1, root, a) ==
      if InSlot(at, a) then (if frame.Some? then Some(frame.value + a.page) else None) else Walk(m0, root, a)
  }

  lemma {:induction false} HugeReached(m0: Frames, m1: Frames, tables: Tables, at: Address, a: Address, level: nat)
    requires level <= 2 && Tree(m0, tables) && InSlot(at, a)
    requires TablePos(at, 2) in tables && TablePos(a, level) in tables
    requires SameElsewhere(m0, m1, tables, TablePos(at, 2), at.pt)
        && Slot(m1, tables[TablePos(at, 2)], at.pt).flags.size
    ensures WalkFrom(m1, tables - {TablePos(at, 3)}, TablePos(a, level), a) ==
            var e := Slot(m1, tables[TablePos(at, 2)], at.pt);
            if e.flags.present && Open(m0, tables[TablePos(a, level)], level, 1, at) then Some(e.frame + a.page)
              else None
    decreases 3 - level
  {
    hide Slot, Shape, Stored;
    SlotPath(at, a);
    var p := TablePos(a, level);
    if level < 2 {
      assert TablePos(a, level + 1) == Child(p, IndexAt(a, level));
      UpperPathInTables(tables, m0, a, level + 1);
      assert SlotOk(tables, p, IndexAt(a, level), Slot(m0, tables[p], IndexAt(a, level)));
      HugeReached(m0, m1, tables, at, a, level + 1);
    }
  }

  lemma SlotPath(at: Address, a: Address)
    requires InSlot(at, a)
    ensures forall k :: 0 <= k <= 3 ==> TablePos(a, k) == TablePos(at, k)
    ensures forall k :: 0 <= k <= 2 ==> IndexAt(a, k) == IndexAt(at, k)
  {
    TablePosAre(at);
    TablePosAre(a);
  }

  lemma {:induction false} UpperPathInTables(tables: Tables, mem: Frames, at: Address, level: nat)
    requires Tree(mem, tables) && level <= 2 && TablePos(at, 2) in tables
    ensures TablePos(at, level) in tables
    decreases 3 - level
  {
    if level < 2 {
      UpperPathInTables(tables, mem, at, level + 1);
    }
  }

  lemma WriteHugeTree(mem: Frames, tables: Tables, at: Address, e: Entry)
    requires Tree(mem, tables) && TablePos(at, 2) in tables && e.flags.size && e.frame % 512 == 0
    ensures Tree(SetSlot(mem, tables[TablePos(at, 2)], at.pt, e), tables - {TablePos(at, 3)})
  {
    hide Slot, SetSlot, TablePos;
    var p, t1 := TablePos(at, 2), tables - {TablePos(at, 3)};
    var m1 := SetSlot(mem, tables[p], at.pt, e);
    OneSlotChanges(mem, tables, p, at.pt, e);
    assert TablePos(at, 3) == Child(p, at.pt) by { TablePosAre(at); }
    forall q, j: Index | q in t1 && Level(q) < 3 ensures SlotOk(t1, q, j, Slot(m1, t1[q], j)) {
      assert SlotOk(tables, q, j, Slot(mem, tables[q], j));
    }
    forall q, j | Child(q, j) in t1 ensures q in t1 && j < 512 {
      assert Child(q, j) in tables;
      assert Level(Child(q, j)) <= 3;
    }
    forall q | q in t1 ensures t1[q] in m1 && |m1[t1[q]]| == 512 && Level(q) <= 3 {
      assert q in tables;
    }
    assert Root in t1;
  }

  lemma WriteHugeWalk(mem: Frames, tables: Tables, at: Address, e: Entry)
    requires Tree(mem, tables) && TablePos(at, 2) in tables && e.flags.size && e.frame % 512 == 0
    ensures SlotUpdate(mem, SetSlot(mem, tables[TablePos(at, 2)], at.pt, e), tables[Root], at,
                       if e.flags.present && UpperOpen(mem, tables[Root], at) then Some(e.frame) else None)
  {
    hide *;
    TreeParts(mem, tables);
    var p, t1 := TablePos(at, 2), tables - {TablePos(at, 3)};
    var m1 := SetSlot(mem, tables[p], at.pt, e);
    var target := if e.flags.present && UpperOpen(mem, tables[Root], at) then Some(e.frame) else None;
    WriteHugeTree(mem, tables, at, e);
    TreeParts(m1, t1);
    OneSlotChanges(mem, tables, p, at.pt, e);
    forall a ensures Walk(m1, tables[Root], a) ==
                     if InSlot(at, a) then (if target.Some? then Some(target.value + a.page) else None)
                       else Walk(mem, tables[Root], a)
    {
      WalkIsWalkFrom(mem, tables, a);
      WalkIsWalkFrom(m1, t1, a);
      RootPos(a);
      if InSlot(at, a) {
        HugeReached(mem, m1, tables, at, a, 0);
        PathOpenIsOpen(mem, tables[Root], at);
      } else {
        OtherSlotPath(mem, m1, tables, at, a);
        SamePathSameWalk(mem, tables, m1, t1, a, 0);
      }
    }
    SlotUpdateIntro(mem, m1, tables[Root], at, target);
  }

  lemma SlotUpdateIntro(m0: Frames, m1: Frames, root: nat, at: Address, frame: Option<nat>)
    requires forall a :: Walk(m1, root, a) ==
               if InSlot(at, a) then (if frame.Some? then Some(frame.value + a.page) else None) else Walk(m0, root, a)
    ensures SlotUpdate(m0, m1, root, at, frame)
  {
  }

  lemma OtherSlotPath(m0: Frames, m1: Frames, tables: Tables, at: Address, a: Address)
    requires !InSlot(at, a) && TablePos(at, 2) in tables
    requires SameElsewhere(m0, m1, tables, TablePos(at, 2), at.pt)
    ensures SamePath(m0, tables, m1, tables - {TablePos(at, 3)}, a, 0)
  {
    hide Slot, TablePos;
    TablePosAre(a);
    TablePosAre(at);
    forall k | 0 <= k <= 3
      ensures var q := TablePos(a, k);
              && q != TablePos(at, 3)
              && (q in tables ==> Slot(m1, tables[q], IndexAt(a, k)) == Slot(m0, tables[q], IndexAt(a, k)))
    {
      var q := TablePos(a, k);
      assert Level(q) == k;
      assert q != TablePos(at, 3);
      assert q == TablePos(at, 2) ==> IndexAt(a, k) != at.pt;
    }
  }

  /** A path that does not go through the changed slot stays as it is. */
  lemma {:induction false} OtherPathOpen(m0: Frames, m1: Frames, tables: Tables, p: Pos,
                                         i: Index, a: Address, level: nat, stop: nat)
    requires Tree(m0, tables) && p in tables && level <= 3 && TablePos(a, level) in tables && stop <= 2
    requires SameElsewhere(m0, m1, tables, p, i)
    requires forall k :: level <= k <= stop ==> !(TablePos(a, k) == p && IndexAt(a, k) == i)
    ensures Open(m1, tables[TablePos(a, level)], level, stop, a) == Open(m0, tables[TablePos(a, level)], level, stop, a)
    decreases 4 - level
  {
    hide Slot, Shape, Stored;
    var q, j := TablePos(a, level), IndexAt(a, level);
    if level <= stop && Slot(m0, tables[q], j) != ZERO {
      assert !(TablePos(a, level) == p && IndexAt(a, level) == i);
      assert SlotOk(tables, q, j, Slot(m0, tables[q], j));
      assert TablePos(a, level + 1) == Child(q, j);
      if level < stop {
        OtherPathOpen(m0, m1, tables, p, i, a, level + 1, stop);
      }
    }
  }

  /** The two upper entries are the same for all pages of a 2 MiB slot. */
  lemma SameUpperOpen(m: Frames, root: nat, at: Address, a: Address)
    requires InSlot(at, a)
    ensures UpperOpen(m, root, a) == UpperOpen(m, root, at)
  {
    PathOpenIsOpen(m, root, a);
    PathOpenIsOpen(m, root, at);
    SameOpenFrom(m, root, 0, at, a);
  }

  lemma {:induction false} SameOpenFrom(m: Frames, f: nat, level: nat, at: Address, a: Address)
    requires InSlot(at, a) && level <= 2
    ensures Open(m, f, level, 1, a) == Open(m, f, level, 1, at)
    decreases 2 - level
  {
    hide Slot;
    if level < 2 { SameOpenFrom(m, Slot(m, f, IndexAt(a, level)).frame, level + 1, at, a); }
  }

  lemma SetSlotTwice(mem: Frames, f: nat, i: Index, e: Entry, e': Entry)
    ensures SetSlot(SetSlot(mem, f, i, e), f, i, e') == SetSlot(mem, f, i, e')
  {
    if f in mem && i < |mem[f]| {
      assert mem[f][i := e][i := e'] == mem[f][i := e'];
    }
  }
}
