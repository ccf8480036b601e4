/** What the operations of the pager do to the tables, to the hardware walk and to the set of frames in
    use, stated on values. */
module PagerEffects {
  import opened Memory
  import opened Paging
  import opened PagingSteps

  /** An address space: physical memory, the tables of its pager, and the allocator's frames in use, out of all frames
      of its range. */
  datatype Space = Space(mem: Frames, tables: Tables, used: set<nat>, range: set<nat>)

  /** What every operation of a pager keeps: the frames others use, and what is stored in them and outside the range. */
  ghost predicate Kept(s0: Space, s1: Space) {
    && Root in s0.tables && Tree(s1.mem, s1.tables) && s1.tables[Root] == s0.tables[Root]
    && s0.tables.Values <= s0.used <= s0.range && s1.tables.Values <= s1.used <= s1.range == s0.range
    && s1.used - s1.tables.Values == s0.used - s0.tables.Values
    && (forall g :: g in s0.mem && Foreign(s0, g) ==> g in s1.mem && s1.mem[g] == s0.mem[g])
  }

  /** A frame that is neither a table of this pager nor free to become one. */
  predicate Foreign(s: Space, g: nat) { g !in s.tables.Values && (g in s.used || g !in s.range) }

  lemma KeptTransitive(s0: Space, s1: Space,
                       s2: Space)
    requires Kept(s0, s1) && Kept(s1, s2)
    ensures Kept(s0, s2)
  {
    hide Tree;
    forall g | g in s0.mem && Foreign(s0, g) ensures g in s2.mem && s2.mem[g] == s0.mem[g] {
      if g in s0.used {
        assert g in s0.used - s0.tables.Values;
        assert g in s1.used - s1.tables.Values;
      }
      assert Foreign(s1, g);
    }
  }

  /** The same paths are open for new mappings. */
  ghost predicate SameOpen(m0: Frames, m1: Frames, root: nat) {
    forall a :: (PathOpen(m1, root, a) <==> PathOpen(m0, root, a))
      && (UpperOpen(m1, root, a) <==> UpperOpen(m0, root, a))
  }

  ghost predicate Extends(t0: Tables, t1: Tables) {
    forall p :: p in t0 ==> p in t1 && t1[p] == t0[p]
  }

  /** The slot on the path of `a` holds a 2 MiB page. */
  ghost predicate HugeAt(m: Frames, t: Tables, a: Address) {
    TablePos(a, 2) in t && Slot(m, t[TablePos(a, 2)], a.pt).flags.size
  }

  /** The directory slot on the path of `a` carries the "table allocated" bit. */
  ghost predicate MarkedAt(m: Frames, t: Tables, a: Address) {
    TablePos(a, 2) in t && Slot(m, t[TablePos(a, 2)], a.pt).flags.stab
  }

  /** Every 2 MiB page was one before, and is marked as it was. */
  ghost predicate NoNewHuge(m0: Frames, t0: Tables, m1: Frames, t1: Tables) {
    forall a :: HugeAt(m1, t1, a) ==> HugeAt(m0, t0, a) && MarkedAt(m1, t1, a) == MarkedAt(m0, t0, a)
  }

  /** A write to one slot makes no 2 MiB page unless it stores one. */
  lemma SlotMakesNoHuge(m0: Frames, t0: Tables, m1: Frames, t1: Tables, p: Pos, i: Index, f: nat)
    requires p in t0 && SameElsewhere(m0, m1, t0, p, i)
    requires t1 == t0 || t1 == t0[Child(p, i) := f]
    requires Child(p, i) in t1 && Child(p, i) !in t0 && Level(p) == 1 ==> forall j: Index :: !Slot(m1, f, j).flags.size
    requires Level(p) == 2 && Slot(m1, t0[p], i).flags.size ==>
               Slot(m0, t0[p], i).flags.size && Slot(m1, t0[p], i).flags.stab == Slot(m0, t0[p], i).flags.stab
    requires Child(p, i) in t0 ==> t1 == t0
    ensures NoNewHuge(m0, t0, m1, t1)
  {
    hide Slot, TablePos;
    forall a | HugeAt(m1, t1, a) ensures HugeAt(m0, t0, a) && MarkedAt(m1, t1, a) == MarkedAt(m0, t0, a) {
      var q := TablePos(a, 2);
      assert Level(q) == 2;
      if q !in t0 {
        assert false;
      }
    }
  }

  lemma NoNewHugeTransitive(m0: Frames, t0: Tables, m1: Frames, t1: Tables, m2: Frames, t2: Tables)
    requires NoNewHuge(m0, t0, m1, t1) && NoNewHuge(m1, t1, m2, t2)
    ensures NoNewHuge(m0, t0, m2, t2)
  {
    hide HugeAt, MarkedAt;
  }

  ghost predicate HugeStays(m0: Frames, t0: Tables, m1: Frames, t1: Tables) {
    forall a :: HugeAt(m0, t0, a) ==> HugeAt(m1, t1, a)
  }

  lemma SlotKeepsHuge(m0: Frames, t0: Tables, m1: Frames, t1: Tables, p: Pos, i: Index)
    requires p in t0 && SameElsewhere(m0, m1, t0, p, i) && Extends(t0, t1)
    requires Slot(m0, t0[p], i).flags.size ==> Slot(m1, t0[p], i).flags.size
    ensures HugeStays(m0, t0, m1, t1)
  {
    hide Slot, TablePos;
    forall a | HugeAt(m0, t0, a) ensures HugeAt(m1, t1, a) {
      var q := TablePos(a, 2);
      assert q in t1 && t1[q] == t0[q];
    }
  }

  lemma HugeStaysTransitive(m0: Frames, t0: Tables, m1: Frames, t1: Tables, m2: Frames, t2: Tables)
    requires HugeStays(m0, t0, m1, t1) && HugeStays(m1, t1, m2, t2)
    ensures HugeStays(m0, t0, m2, t2)
  {
    hide HugeAt;
  }

  lemma HugeStaysRefl(m: Frames, t: Tables)
    ensures HugeStays(m, t, m, t)
  {
  }

  /** A 2 MiB page is still there, or was split into a table. */
  ghost predicate HugeSplits(s0: Space, s1: Space) {
    forall a :: HugeAt(s0.mem, s0.tables, a) ==> HugeAt(s1.mem, s1.tables, a) || TablePos(a, 3) in s1.tables
  }

  /** The table of this level on the path of `a` was hung into an empty slot. */
  ghost predicate Hung(s0: Space, s1: Space, a: Address, level: nat) {
    && TablePos(a, level) in s1.tables && TablePos(a, level) !in s0.tables
    && !(level == 3 && HugeAt(s0.mem, s0.tables, a))
  }

  /** Tables that are hung without being present close exactly the paths through them. */
  ghost predicate Closes(s0: Space, s1: Space, root: nat, a: Address) {
    var hung := Hung(s0, s1, a, 1) || Hung(s0, s1, a, 2);
    && (UpperOpen(s1.mem, root, a) <==> UpperOpen(s0.mem, root, a) && !hung)
    && (PathOpen(s1.mem, root, a) <==> PathOpen(s0.mem, root, a) && !hung && !Hung(s0, s1, a, 3))
  }

  /** Which paths are open for new mappings, when what is created is present or not. */
  ghost predicate OpenAfter(s0: Space, s1: Space, root: nat, present: bool) {
    if present then SameOpen(s0.mem, s1.mem, root) else forall a :: Closes(s0, s1, root, a)
  }

  lemma OpenAfterTransitive(s0: Space, s1: Space, s2: Space, root: nat, present: bool)
    requires OpenAfter(s0, s1, root, present) && OpenAfter(s1, s2, root, present)
    requires Extends(s0.tables, s1.tables) && Extends(s1.tables, s2.tables) && HugeSplits(s0, s1)
    requires NoNewHuge(s0.mem, s0.tables, s1.mem, s1.tables)
    ensures OpenAfter(s0, s2, root, present)
  {
    hide PathOpen, UpperOpen, HugeAt, TablePos;
    if present {
      SameOpenTransitive(s0.mem, s1.mem, s2.mem, root);
    } else {
      forall a ensures Closes(s0, s2, root, a) {
        assert Closes(s0, s1, root, a) && Closes(s1, s2, root, a);
        forall level | 1 <= level <= 3
          ensures Hung(s0, s2, a, level) <==> Hung(s0, s1, a, level) || Hung(s1, s2, a, level)
        {
        }
      }
    }
  }

  lemma HugeSplitsTransitive(s0: Space, s1: Space, s2: Space)
    requires HugeSplits(s0, s1) && HugeSplits(s1, s2) && Extends(s1.tables, s2.tables)
    ensures HugeSplits(s0, s2)
  {
    hide HugeAt, TablePos;
  }

  lemma HugeStaysSplits(s0: Space, s1: Space)
    requires HugeStays(s0.mem, s0.tables, s1.mem, s1.tables)
    ensures HugeSplits(s0, s1)
  {
    hide HugeAt, TablePos;
  }

  /** Without new tables the same paths stay open, or with one in the place of a 2 MiB page. */
  lemma SameOpenIsAfter(s0: Space, s1: Space, root: nat, present: bool)
    requires SameOpen(s0.mem, s1.mem, root)
    requires forall a, level :: !Hung(s0, s1, a, level)
    ensures OpenAfter(s0, s1, root, present)
  {
    hide PathOpen, UpperOpen, Hung;
  }

  lemma NothingHung(s0: Space, s1: Space)
    requires s1.tables == s0.tables
    ensures forall a, level :: !Hung(s0, s1, a, level)
  {
  }

  /** The effect of preparing tables: the tree may have grown, and no address translates differently. Tables that are
      not present close the paths through them. */
  ghost predicate Prepared(s0: Space, s1: Space, root: nat, present: bool) {
    && Kept(s0, s1)
    && Extends(s0.tables, s1.tables)
    && SameWalk(s0.mem, s1.mem, root)
    && OpenAfter(s0, s1, root, present)
    && NoNewHuge(s0.mem, s0.tables, s1.mem, s1.tables) && HugeSplits(s0, s1)
  }

  lemma PreparedTransitive(s0: Space, s1: Space,
                           s2: Space, root: nat, present: bool)
    requires Prepared(s0, s1, root, present) && Prepared(s1, s2, root, present)
    ensures Prepared(s0, s2, root, present)
  {
    hide Kept, Extends, SameWalk, OpenAfter, NoNewHuge, HugeSplits;
    NoNewHugeTransitive(s0.mem, s0.tables, s1.mem, s1.tables, s2.mem, s2.tables);
    HugeSplitsTransitive(s0, s1, s2);
    KeptTransitive(s0, s1, s2);
    ExtendsTransitive(s0.tables, s1.tables, s2.tables);
    SameWalkTransitive(s0.mem, s1.mem, s2.mem, root);
    OpenAfterTransitive(s0, s1, s2, root, present);
  }

  lemma PreparedRefl(s: Space, root: nat, present: bool)
    requires Tree(s.mem, s.tables) && s.tables.Values <= s.used <= s.range
    ensures Prepared(s, s, root, present)
  {
    hide Tree;
    assert Root in s.tables by { TreeParts(s.mem, s.tables); }
  }

  lemma PreparedTree(s0: Space, s1: Space, root: nat, present: bool)
    requires Prepared(s0, s1, root, present)
    ensures Tree(s1.mem, s1.tables) && s1.tables.Values <= s1.used <= s1.range
    ensures Root in s0.tables && Root in s1.tables && s1.tables[Root] == s0.tables[Root]
  {
    TreeParts(s1.mem, s1.tables);
  }

  lemma PreparedHas(s0: Space, s1: Space, root: nat, present: bool, p: Pos)
    requires Prepared(s0, s1, root, present)
    ensures p in s0.tables ==> p in s1.tables && s1.tables[p] == s0.tables[p]
  {
  }

  /** The effect of a successful `page_4_kb`: the walk changes at one address only. The new page is
      reached exactly when it is present and so is every table entry that was already on its path. */
  ghost predicate Mapped(s0: Space, s1: Space, root: nat,
                         at: Address, frame: nat, present: bool) {
    && Kept(s0, s1)
    && Extends(s0.tables, s1.tables)
    && PointUpdate(s0.mem, s1.mem, root, at, if present && PathOpen(s0.mem, root, at) then Some(frame) else None)
    && OpenAfter(s0, s1, root, present)
    && NoNewHuge(s0.mem, s0.tables, s1.mem, s1.tables) && HugeSplits(s0, s1)
  }

  lemma PreparedThenWritten(s0: Space, s1: Space, s2: Space,
                            root: nat, at: Address, frame: nat, present: bool)
    requires Prepared(s0, s1, root, present)
    requires Mapped(s1, s2, root, at, frame, present)
    ensures Mapped(s0, s2, root, at, frame, present)
  {
    hide Kept, Extends, Walk, PathOpen, UpperOpen, NoNewHuge, HugeSplits, Closes;
    NoNewHugeTransitive(s0.mem, s0.tables, s1.mem, s1.tables, s2.mem, s2.tables);
    HugeSplitsTransitive(s0, s1, s2);
    KeptTransitive(s0, s1, s2);
    ExtendsTransitive(s0.tables, s1.tables, s2.tables);
    OpenAfterTransitive(s0, s1, s2, root, present);
  }

  // ----- what one write keeps, on values

  lemma HangKeeps(s0: Space, p: Pos, i: Index, f: nat, table: seq<Entry>, flags: Flags)
    requires Shape(s0.tables) && Stored(s0.mem, s0.tables) && s0.tables.Values <= s0.used <= s0.range && f !in s0.used
        && f in s0.range && p in s0.tables && Child(p, i) !in s0.tables && |table| == 512
    requires Tree(Hang(s0.mem, s0.tables, p, i, f, table, flags), s0.tables[Child(p, i) := f])
    ensures Kept(s0,
        Space(Hang(s0.mem, s0.tables, p, i, f, table, flags), s0.tables[Child(p, i) := f], s0.used + {f}, s0.range))
  {
    hide Tree, Shape, Stored;
    var t1 := s0.tables[Child(p, i) := f];
    assert Root in s0.tables by { assert Shape(s0.tables); ShapeHasRoot(s0.tables); }
    forall g | g in t1.Values ensures g in s0.tables.Values || g == f {
      var q :| q in t1 && t1[q] == g;
      if q != Child(p, i) { assert s0.tables[q] == g; }
    }
    forall g | g in s0.tables.Values ensures g in t1.Values {
      var q :| q in s0.tables && s0.tables[q] == g;
      assert t1[q] == g;
    }
    assert t1[Child(p, i)] == f;
    assert t1.Values == s0.tables.Values + {f};
    assert s0.tables[p] in s0.tables.Values;
    assert t1[Root] == s0.tables[Root];
  }

  lemma ShapeHasRoot(t: Tables)
    requires Shape(t)
    ensures Root in t
  {
  }

  lemma SetSlotKeeps(s: Space, p: Pos, i: Index, e: Entry)
    requires p in s.tables && Root in s.tables && s.tables.Values <= s.used <= s.range
    requires Tree(SetSlot(s.mem, s.tables[p], i, e), s.tables)
    ensures Kept(s, s.(mem := SetSlot(s.mem, s.tables[p], i, e)))
  {
    hide Tree;
    assert s.tables[p] in s.tables.Values;
  }

  lemma SameWalkTransitive(m0: Frames, m1: Frames, m2: Frames, root: nat)
    requires SameWalk(m0, m1, root) && SameWalk(m1, m2, root)
    ensures SameWalk(m0, m2, root)
  {
    hide Walk;
  }

  lemma SameOpenTransitive(m0: Frames, m1: Frames, m2: Frames, root: nat)
    requires SameOpen(m0, m1, root) && SameOpen(m1, m2, root)
    ensures SameOpen(m0, m2, root)
  {
    hide PathOpen, UpperOpen;
  }

  lemma NewTableOpenAfter(s0: Space, s1: Space, p: Pos, i: Index, f: nat, flags: Flags)
    requires Tree(s0.mem, s0.tables) && p in s0.tables && f !in s0.tables.Values && Level(p) < 3 && flags.stab
    requires Slot(s0.mem, s0.tables[p], i) == ZERO
    requires s1.mem == Hang(s0.mem, s0.tables, p, i, f, EmptyTable(), flags) && s1.tables == s0.tables[Child(p, i) := f]
    ensures Root in s0.tables && OpenAfter(s0, s1, s0.tables[Root], flags.present)
  {
    hide Tree, Shape, Stored, SlotsOk, SameElsewhere, Slot, PathOpen, UpperOpen, Open, TablePos, Hung, EmptyTable, Hang;
    TreeParts(s0.mem, s0.tables);
    var tables, root := s0.tables, s0.tables[Root];
    EmptyTableIsZero();
    HangSlots(s0.mem, tables, p, i, f, EmptyTable(), flags);
    SizeIsNotZero(Entry(f, flags));
    forall a
      ensures flags.present ==> && (PathOpen(s1.mem, root, a) <==> PathOpen(s0.mem, root, a))
                                && (UpperOpen(s1.mem, root, a) <==> UpperOpen(s0.mem, root, a))
      ensures !flags.present ==> Closes(s0, s1, root, a)
    {
      RootPos(a);
      PathOpenIsOpen(s0.mem, root, a);
      PathOpenIsOpen(s1.mem, root, a);
      NewTableOpen(s0.mem, s1.mem, tables, p, i, f, a, 0, 2);
      NewTableOpen(s0.mem, s1.mem, tables, p, i, f, a, 0, 1);
      HungOne(s0, s1, p, i, f, a);
    }
    if flags.present { SameOpenIntro(s0.mem, s1.mem, root); }
  }

  lemma HungOne(s0: Space, s1: Space, p: Pos, i: Index, f: nat, a: Address)
    requires Tree(s0.mem, s0.tables) && p in s0.tables && Level(p) < 3 && Slot(s0.mem, s0.tables[p], i) == ZERO
    requires s1.tables == s0.tables[Child(p, i) := f]
    ensures forall level | 1 <= level <= 3 ::
              Hung(s0, s1, a, level) <==> level == Level(p) + 1 && TablePos(a, level) == Child(p, i)
  {
    hide Tree, Slot;
    SlotFacts(s0.mem, s0.tables, p, i);
    TablePosAre(a);
    assert Level(Child(p, i)) == Level(p) + 1;
  }

  lemma SameOpenIntro(m0: Frames, m1: Frames, root: nat)
    requires forall a :: PathOpen(m1, root, a) <==> PathOpen(m0, root, a)
    requires forall a :: UpperOpen(m1, root, a) <==> UpperOpen(m0, root, a)
    ensures SameOpen(m0, m1, root)
  {
  }

  lemma SameKindSameOpen(mem: Frames, m1: Frames, tables: Tables, p: Pos, i: Index)
    requires Tree(mem, tables) && p in tables && SameElsewhere(mem, m1, tables, p, i)
    requires Level(p) <= 2 ==> && Slot(mem, tables[p], i) != ZERO && Slot(m1, tables[p], i) != ZERO
                               && Slot(m1, tables[p], i).flags.present == Slot(mem, tables[p], i).flags.present
    requires Level(p) < 2 ==> Slot(m1, tables[p], i).frame == Slot(mem, tables[p], i).frame
    ensures SameOpen(mem, m1, tables[Root])
  {
    hide *;
    TreeParts(mem, tables);
    forall a ensures PathOpen(m1, tables[Root], a) <==> PathOpen(mem, tables[Root], a)
             ensures UpperOpen(m1, tables[Root], a) <==> UpperOpen(mem, tables[Root], a)
    {
      RootPos(a);
      PathOpenIsOpen(mem, tables[Root], a);
      PathOpenIsOpen(m1, tables[Root], a);
      SameKindOpen(mem, m1, tables, p, i, a, 0, 2);
      SameKindOpen(mem, m1, tables, p, i, a, 0, 1);
    }
    SameOpenIntro(mem, m1, tables[Root]);
  }

  /** What the tree says about one slot. */
  lemma SlotFacts(mem: Frames, tables: Tables, p: Pos, i: Index)
    requires Tree(mem, tables) && p in tables && Level(p) < 3
    ensures var e := Slot(mem, tables[p], i);
            && (e == ZERO ==> Child(p, i) !in tables)
            && (e != ZERO && e.flags.size ==> Level(p) == 2 && e.frame % 512 == 0 && Child(p, i) !in tables)
            && (e != ZERO && !e.flags.size ==> e.flags.stab && Child(p, i) in tables && tables[Child(p, i)] == e.frame)
  {
    assert SlotOk(tables, p, i, Slot(mem, tables[p], i));
  }

  lemma ExtendsByOne(t: Tables, p: Pos, f: nat)
    requires p !in t
    ensures Extends(t, t[p := f])
  {
  }

  lemma ExtendsTransitive(t0: Tables, t1: Tables, t2: Tables)
    requires Extends(t0, t1) && Extends(t1, t2)
    ensures Extends(t0, t2)
  {
  }

  lemma ExtendsRefl(t: Tables)
    ensures Extends(t, t)
  {
  }

  /** Splitting a 2 MiB page only prepares. */
  lemma UnfoldPrepared(s0: Space, p: Pos, i: Index, f: nat, present: bool)
    requires Tree(s0.mem, s0.tables) && s0.tables.Values <= s0.used <= s0.range && f !in s0.used && f in s0.range
    requires p in s0.tables && Level(p) < 3 && Slot(s0.mem, s0.tables[p], i).flags.size
    ensures Root in s0.tables
    ensures Prepared(s0,
        Space(Unfolded(s0.mem, s0.tables, p, i, f), s0.tables[Child(p, i) := f], s0.used + {f}, s0.range),
                     s0.tables[Root], present)
  {
    hide Tree, Shape, Stored, SlotsOk, SameWalk, SameOpen, Kept, Extends,
         NoNewHuge, SameElsewhere, Slot, SetSlot, SmallPages, OpenAfter, HugeSplits, Hung;
    TreeParts(s0.mem, s0.tables);
    SlotFacts(s0.mem, s0.tables, p, i);
    UnfoldTree(s0.mem, s0.tables, p, i, f);
    UnfoldWalk(s0.mem, s0.tables, p, i, f);
    UnfoldSlots(s0.mem, s0.tables, p, i, f);
    var held := Slot(s0.mem, s0.tables[p], i);
    SmallPagesAre(held.frame, held.flags.(size := false));
    HangKeeps(s0, p, i, f, SmallPages(held.frame, held.flags.(size := false)),
      held.flags.(size := false, stab := true));
    var s1 := Space(Unfolded(s0.mem, s0.tables, p, i, f), s0.tables[Child(p, i) := f], s0.used + {f}, s0.range);
    SizeIsNotZero(held);
    SameKindSameOpen(s0.mem, s1.mem, s0.tables, p, i);
    SlotMakesNoHuge(s0.mem, s0.tables, s1.mem, s1.tables, p, i, f);
    ExtendsByOne(s0.tables, Child(p, i), f);
    SplitHangsNothing(s0, s1, p, i, f);
    SameOpenIsAfter(s0, s1, s0.tables[Root], present);
  }

  lemma SplitHangsNothing(s0: Space, s1: Space, p: Pos, i: Index, f: nat)
    requires Tree(s0.mem, s0.tables) && p in s0.tables && Level(p) == 2 && Slot(s0.mem, s0.tables[p], i).flags.size
    requires SameElsewhere(s0.mem, s1.mem, s0.tables, p, i) && s1.tables == s0.tables[Child(p, i) := f]
    ensures HugeSplits(s0, s1) && forall a, level :: !Hung(s0, s1, a, level)
  {
    hide Tree, Slot, TablePos;
    forall a, level | TablePos(a, level) == Child(p, i) ensures level == 3 && HugeAt(s0.mem, s0.tables, a) {
      assert Level(Child(p, i)) == 3;
      TablePosAre(a);
    }
    forall a | HugeAt(s0.mem, s0.tables, a) ensures HugeAt(s1.mem, s1.tables, a) || TablePos(a, 3) in s1.tables {
      TablePosAre(a);
    }
  }

  lemma SizeIsNotZero(e: Entry)
    requires e.flags.size || e.flags.stab
    ensures e != ZERO
  {
  }

  // ----- other pagers

  /** The tables of another pager are none of this one's business. */
  ghost predicate Alien(s: Space, o: Tables) { forall g :: g in o.Values ==> Foreign(s, g) }

  /** Nothing done to this pager changes another one's tables, so nothing translates differently there. */
  lemma AlienUntouched(s0: Space, s1: Space, o: Tables)
    requires Kept(s0, s1) && Tree(s0.mem, o) && Alien(s0, o)
    ensures Root in o && Tree(s1.mem, o) && Alien(s1, o) && SameSlots(s0.mem, s1.mem, o)
    ensures SameWalk(s0.mem, s1.mem, o[Root]) && SameOpen(s0.mem, s1.mem, o[Root])
  {
    hide Tree, SameWalk, SameOpen, SameSlots;
    AlienFrames(s0, s1, o);
    SameFramesSameWalk(s0.mem, s1.mem, o);
  }

  /** The frames of these tables hold what they held. */
  ghost predicate SameFrames(m0: Frames, m1: Frames, o: Tables) {
    forall g :: g in o.Values && g in m0 ==> g in m1 && m1[g] == m0[g]
  }

  lemma SameFramesSameWalk(m0: Frames, m1: Frames, o: Tables)
    requires Tree(m0, o) && SameFrames(m0, m1, o)
    ensures Root in o && Tree(m1, o) && SameSlots(m0, m1, o)
    ensures SameWalk(m0, m1, o[Root]) && SameOpen(m0, m1, o[Root])
  {
    hide Shape, Walk, PathOpen, UpperOpen, Open;
    TreeParts(m0, o);
    forall q | q in o ensures o[q] in m1 && m1[o[q]] == m0[o[q]] {
      assert o[q] in o.Values;
    }
    forall q, j: Index | q in o && Level(q) < 3 ensures SlotOk(o, q, j, Slot(m1, o[q], j)) {
      assert SlotOk(o, q, j, Slot(m0, o[q], j));
    }
    forall a
      ensures Walk(m1, o[Root], a) == Walk(m0, o[Root], a)
      ensures PathOpen(m1, o[Root], a) <==> PathOpen(m0, o[Root], a)
      ensures UpperOpen(m1, o[Root], a) <==> UpperOpen(m0, o[Root], a)
    {
      WalkIsWalkFrom(m0, o, a);
      WalkIsWalkFrom(m1, o, a);
      RootPos(a);
      SamePathSameWalk(m0, o, m1, o, a, 0);
      PathOpenIsOpen(m0, o[Root], a);
      PathOpenIsOpen(m1, o[Root], a);
      SameSlotsOpen(m0, m1, o, a, 0, 2);
      SameSlotsOpen(m0, m1, o, a, 0, 1);
    }
  }

  lemma AlienFrames(s0: Space, s1: Space, o: Tables)
    requires Kept(s0, s1) && Tree(s0.mem, o) && Alien(s0, o)
    ensures SameFrames(s0.mem, s1.mem, o) && Alien(s1, o)
  {
    hide Tree;
    forall g | g in o.Values && g in s0.mem ensures g in s1.mem && s1.mem[g] == s0.mem[g] {
      assert Foreign(s0, g);
    }
    forall g | g in o.Values ensures Foreign(s1, g) {
      assert Foreign(s0, g);
      if g in s0.used { assert g in s0.used - s0.tables.Values && g in s1.used - s1.tables.Values; }
    }
  }

  // ----- 2 MiB pages

  lemma SameHuge(s0: Space, s1: Space, root: nat, present: bool, at: Address)
    requires Prepared(s0, s1, root, present) && HugeStays(s0.mem, s0.tables, s1.mem, s1.tables)
    ensures HugeAt(s1.mem, s1.tables, at) <==> HugeAt(s0.mem, s0.tables, at)
  {
  }

  lemma MappedHugeTree(s0: Space, s1: Space, root: nat, at: Address, frame: nat, present: bool, marked: bool)
    requires MappedHuge(s0, s1, root, at, frame, present, marked)
    ensures Tree(s1.mem, s1.tables) && s1.tables.Values <= s1.used <= s1.range
    ensures Root in s0.tables && Root in s1.tables && s1.tables[Root] == s0.tables[Root]
  {
    assert Root in s1.tables by { TreeParts(s1.mem, s1.tables); }
  }

  lemma SlotStored(m: Frames, t: Tables, p: Pos, i: Index)
    requires Tree(m, t) && p in t
    ensures forall e, x: Frames :: x == SetSlot(m, t[p], i, e) ==> Slot(x, t[p], i) == e
    ensures Root in t
  {
  }

  lemma HugeSlot(m: Frames, t: Tables, at: Address)
    requires TablePos(at, 2) in t
    ensures HugeAt(m, t, at) <==> Slot(m, t[TablePos(at, 2)], at.pt).flags.size
  {
  }

  /** In a tree, a slot that is not a 2 MiB page has the "table allocated" bit exactly when a table hangs
      below it. */
  lemma SlotStab(m: Frames, t: Tables, at: Address)
    requires Tree(m, t) && TablePos(at, 2) in t && !HugeAt(m, t, at)
    ensures Slot(m, t[TablePos(at, 2)], at.pt).flags.stab <==> TablePos(at, 3) in t
    ensures TablePos(at, 3) in t ==>
        t[TablePos(at, 3)] == Slot(m, t[TablePos(at, 2)], at.pt).frame && t[TablePos(at, 3)] in t.Values
  {
    TablePosAre(at);
    SlotFacts(m, t, TablePos(at, 2), at.pt);
  }

  /** A 2 MiB entry whose address is not a multiple of 2 MiB has reserved bits set: it translates nothing. */
  lemma MisalignedHugeFaults(m: Frames, root: nat, a: Address)
    requires Slot(m, Slot(m, Slot(m, root, a.pdp).frame, a.pd).frame, a.pt).flags.size
    requires Slot(m, Slot(m, Slot(m, root, a.pdp).frame, a.pd).frame, a.pt).frame % 512 > 1
    requires !Slot(m, root, a.pdp).flags.size && !Slot(m, Slot(m, root, a.pdp).frame, a.pd).flags.size
    ensures Walk(m, root, a) == None
  {
  }

  /** Every table entry on the path of every address is present. */
  ghost predicate AllOpen(m: Frames, root: nat) {
    forall a :: PathOpen(m, root, a)
  }

  /** The paths that do not go through the slot of `at` are open as before, and so are the upper halves of all. */
  ghost predicate SameOpenElsewhere(m0: Frames, m1: Frames, root: nat, at: Address) {
    && (forall a :: UpperOpen(m1, root, a) <==> UpperOpen(m0, root, a))
    && (forall a :: !InSlot(at, a) ==> (PathOpen(m1, root, a) <==> PathOpen(m0, root, a)))
  }

  /** The effect of a successful `page_2_mb`: the walk changes in one 2 MiB slot only. Its new page is reached
      exactly when it is present and so are the two upper entries that were already there. `marked` is the
      "table allocated" bit of the new page. */
  ghost predicate MappedHuge(s0: Space, s1: Space, root: nat, at: Address, frame: nat, present: bool, marked: bool) {
    && Kept(s0, s1)
    && SlotUpdate(s0.mem, s1.mem, root, at, if present && UpperOpen(s0.mem, root, at) then Some(frame) else None)
    && OpenAfterHuge(s0, s1, root, at, present)
    && forall a :: HugeAfter(s0, s1, at, marked, a)
  }

  /** Which paths are open for new mappings: in the slot those that reach a present page, elsewhere as after any
      other mapping. */
  ghost predicate OpenAfterHuge(s0: Space, s1: Space, root: nat, at: Address, present: bool) {
    && (forall a :: InSlot(at, a) ==> (PathOpen(s1.mem, root, a) <==> present && UpperOpen(s1.mem, root, a)))
    && if present then SameOpenElsewhere(s0.mem, s1.mem, root, at) else forall a :: ClosesElsewhere(s0, s1, root, at, a)
  }

  ghost predicate ClosesElsewhere(s0: Space, s1: Space, root: nat, at: Address, a: Address) {
    var hung := Hung(s0, s1, a, 1) || Hung(s0, s1, a, 2);
    && (UpperOpen(s1.mem, root, a) <==> UpperOpen(s0.mem, root, a) && !hung)
    && (!InSlot(at, a) ==>
      (PathOpen(s1.mem, root, a) <==> PathOpen(s0.mem, root, a) && !hung && !Hung(s0, s1, a, 3)))
  }

  /** In the slot of `at` there is a 2 MiB page now, marked or not; any other was there before. */
  ghost predicate HugeAfter(s0: Space, s1: Space, at: Address, marked: bool, a: Address) {
    if InSlot(at, a) then HugeAt(s1.mem, s1.tables, a) && MarkedAt(s1.mem, s1.tables, a) == marked
    else HugeAt(s1.mem, s1.tables, a) ==>
           HugeAt(s0.mem, s0.tables, a) && MarkedAt(s1.mem, s1.tables, a) == MarkedAt(s0.mem, s0.tables, a)
  }

  lemma PreparedThenHuge(s0: Space, s1: Space, s2: Space, root: nat,
                         at: Address, frame: nat, present: bool, marked: bool)
    requires Prepared(s0, s1, root, present) && MappedHuge(s1, s2, root, at, frame, present, marked)
    requires s2.tables == s1.tables - {TablePos(at, 3)} && SameOpenElsewhere(s1.mem, s2.mem, root, at)
    ensures MappedHuge(s0, s2, root, at, frame, present, marked)
  {
    hide Kept, Extends, Walk, PathOpen, UpperOpen, InSlot, HugeAt, MarkedAt, Hung, Closes, HugeSplits;
    KeptTransitive(s0, s1, s2);
    forall a ensures HugeAfter(s0, s2, at, marked, a) { assert HugeAfter(s1, s2, at, marked, a); }
    if !present {
      forall a ensures ClosesElsewhere(s0, s2, root, at, a) {
        assert Closes(s0, s1, root, a);
        ClosesAfterwards(s0, s1, s2, root, at, a);
      }
    }
  }

  lemma ClosesAfterwards(s0: Space, s1: Space, s2: Space, root: nat, at: Address, a: Address)
    requires Closes(s0, s1, root, a) && s2.tables == s1.tables - {TablePos(at, 3)}
    requires UpperOpen(s2.mem, root, a) <==> UpperOpen(s1.mem, root, a)
    requires !InSlot(at, a) ==> (PathOpen(s2.mem, root, a) <==> PathOpen(s1.mem, root, a))
    ensures ClosesElsewhere(s0, s2, root, at, a)
  {
    hide PathOpen, UpperOpen, HugeAt;
    TablePosAre(at);
    TablePosAre(a);
  }

  /** Below a 2 MiB page there is nothing that could be closed. */
  lemma HugePathOpen(m: Frames, t: Tables, a: Address)
    requires Tree(m, t) && HugeAt(m, t, a)
    ensures Root in t
    ensures PathOpen(m, t[Root], a) <==>
        UpperOpen(m, t[Root], a) && Slot(m, t[TablePos(a, 2)], a.pt).flags.present
  {
    hide Slot, Stored;
    TreeParts(m, t);
    TablePosAre(a);
    Parents(t, a);
    var p1 := Child(Root, a.pdp);
    SlotFacts(m, t, Root, a.pdp);
    SlotFacts(m, t, p1, a.pd);
    SizeIsNotZero(Slot(m, t[TablePos(a, 2)], a.pt));
    UpperOpenUnfolded(m, t[Root], a);
    var e4 := Slot(m, t[Root], a.pdp);
    var e3 := Slot(m, e4.frame, a.pd);
    assert Open(m, e3.frame, 2, 2, a) <==> Slot(m, e3.frame, a.pt).flags.present;
    assert Open(m, e4.frame, 1, 2, a) <==> e3.flags.present && Open(m, e3.frame, 2, 2, a);
  }

  /** A 2 MiB page stored in the slot of `at`, in place of whatever was there. */
  ghost function WithHuge(s: Space, at: Address, e: Entry): Space
    requires TablePos(at, 2) in s.tables
  {
    var p3 := TablePos(at, 3);
    Space(SetSlot(s.mem, s.tables[TablePos(at, 2)], at.pt, e), s.tables - {p3},
          if p3 in s.tables then s.used - {s.tables[p3]} else s.used, s.range)
  }

  lemma ValuesWithout(t: Tables, p: Pos)
    requires Shape(t)
    ensures (t - {p}).Values == if p in t then t.Values - {t[p]} else t.Values
  {
    var t1 := t - {p};
    forall g | g in t.Values ensures g in t1.Values || (p in t && g == t[p]) {
      var q :| q in t && t[q] == g;
      if q != p { assert q in t1 && t1[q] == g; }
    }
    forall g | g in t1.Values ensures g in t.Values && (p in t ==> g != t[p]) {
      var q :| q in t1 && t1[q] == g;
      assert t[q] == g;
    }
  }

  lemma WriteHugeKeeps(s: Space, at: Address, e: Entry)
    requires Tree(s.mem, s.tables) && TablePos(at, 2) in s.tables && s.tables.Values <= s.used <= s.range
    requires e.flags.size && e.frame % 512 == 0
    ensures Kept(s, WithHuge(s, at, e))
  {
    hide Tree, Shape, Stored, SlotsOk, SetSlot, Slot;
    var p3, t := TablePos(at, 3), s.tables;
    WriteHugeTree(s.mem, t, at, e);
    TreeParts(s.mem, t);
    TreeParts(SetSlot(s.mem, t[TablePos(at, 2)], at.pt, e), t - {p3});
    ValuesWithout(t, p3);
    assert t[TablePos(at, 2)] in t.Values;
    if p3 in t { assert t[p3] in t.Values; }
    SetSlotElsewhere(s.mem, t[TablePos(at, 2)], at.pt, e);
  }

  lemma SetSlotElsewhere(m: Frames, f: nat, i: Index, e: Entry)
    ensures forall g :: g in m && g != f ==> g in SetSlot(m, f, i, e) && SetSlot(m, f, i, e)[g] == m[g]
  {
  }

  lemma WriteHugeOpen(m0: Frames, m1: Frames, t: Tables, at: Address)
    requires Tree(m0, t) && TablePos(at, 2) in t && SameElsewhere(m0, m1, t, TablePos(at, 2), at.pt)
    ensures Root in t && SameOpenElsewhere(m0, m1, t[Root], at)
  {
    hide Tree, Shape, Stored, Slot, SameElsewhere, TablePos, PathOpen, UpperOpen, Open;
    TreeParts(m0, t);
    TablePosAre(at);
    forall a ensures UpperOpen(m1, t[Root], a) <==> UpperOpen(m0, t[Root], a)
             ensures !InSlot(at, a) ==> (PathOpen(m1, t[Root], a) <==> PathOpen(m0, t[Root], a))
    {
      TablePosAre(a);
      PathOpenIsOpen(m0, t[Root], a);
      PathOpenIsOpen(m1, t[Root], a);
      OtherPathOpen(m0, m1, t, TablePos(at, 2), at.pt, a, 0, 1);
      if !InSlot(at, a) {
        forall k | 0 <= k <= 2 ensures !(TablePos(a, k) == TablePos(at, 2) && IndexAt(a, k) == at.pt) {
          assert Level(TablePos(a, k)) == k;
        }
        OtherPathOpen(m0, m1, t, TablePos(at, 2), at.pt, a, 0, 2);
      }
    }
  }

  lemma WriteHugeEffect(s: Space, at: Address, e: Entry)
    requires Tree(s.mem, s.tables) && TablePos(at, 2) in s.tables && s.tables.Values <= s.used <= s.range
    requires e.flags.size && e.frame % 512 == 0
    ensures Root in s.tables
            && MappedHuge(s, WithHuge(s, at, e), s.tables[Root], at, e.frame, e.flags.present, e.flags.stab)
            && SameOpenElsewhere(s.mem, WithHuge(s, at, e).mem, s.tables[Root], at)
  {
    hide Tree, Shape, Stored, SetSlot, Slot, Kept, SlotUpdate, SameElsewhere, TablePos, PathOpen, UpperOpen, HugeAfter;
    hide Hung, Closes;
    TreeParts(s.mem, s.tables);
    WriteHugeKeeps(s, at, e);
    WriteHugeWalk(s.mem, s.tables, at, e);
    OneSlotChanges(s.mem, s.tables, TablePos(at, 2), at.pt, e);
    var s1 := WithHuge(s, at, e);
    WriteHugeOpen(s.mem, s1.mem, s.tables, at);
    WriteHugeTree(s.mem, s.tables, at, e);
    TreeParts(s1.mem, s1.tables);
    WriteHugeOpenAfter(s, s1, at, e);
    forall a ensures HugeAfter(s, s1, at, e.flags.stab, a) {
      HugeOnlyInSlot(s, s1, at, e, a);
    }
  }

  lemma WriteHugeOpenAfter(s: Space, s1: Space, at: Address, e: Entry)
    requires TablePos(at, 2) in s.tables && SameElsewhere(s.mem, s1.mem, s.tables, TablePos(at, 2), at.pt)
    requires Slot(s1.mem, s.tables[TablePos(at, 2)], at.pt) == e && e.flags.size
    requires s1.tables == s.tables - {TablePos(at, 3)} && Tree(s1.mem, s1.tables) && Root in s1.tables
    requires SameOpenElsewhere(s.mem, s1.mem, s.tables[Root], at)
    ensures OpenAfterHuge(s, s1, s.tables[Root], at, e.flags.present)
  {
    hide Tree, Slot, PathOpen, UpperOpen, SameElsewhere;
    var root := s.tables[Root];
    forall a | InSlot(at, a) ensures PathOpen(s1.mem, root, a) <==> e.flags.present && UpperOpen(s1.mem, root, a) {
      SlotPath(at, a);
      TablePosAre(at);
      HugePathOpen(s1.mem, s1.tables, a);
    }
    forall a ensures ClosesElsewhere(s, s1, root, at, a) { }
  }

  lemma HugeOnlyInSlot(s: Space, s1: Space, at: Address, e: Entry, a: Address)
    requires TablePos(at, 2) in s.tables && SameElsewhere(s.mem, s1.mem, s.tables, TablePos(at, 2), at.pt)
    requires Slot(s1.mem, s.tables[TablePos(at, 2)], at.pt) == e && e.flags.size
        && s1.tables == s.tables - {TablePos(at, 3)}
    ensures HugeAfter(s, s1, at, e.flags.stab, a)
  {
    hide Slot, TablePos;
    TablePosAre(a);
    TablePosAre(at);
    if TablePos(a, 2) in s.tables && (TablePos(a, 2) != TablePos(at, 2) || a.pt != at.pt) {
      assert Slot(s1.mem, s.tables[TablePos(a, 2)], a.pt) == Slot(s.mem, s.tables[TablePos(a, 2)], a.pt);
    }
  }

  /** A slot that held a 2 MiB page and is overwritten without the page-size bit: the walk takes the frame of the
      new page for a page table. */
  lemma RemappedSlotReadsPage(m0: Frames, t: Tables, at: Address, e: Entry, a: Address)
    requires Tree(m0, t) && HugeAt(m0, t, at) && !e.flags.size && InSlot(at, a)
    ensures Root in t && TablePos(at, 2) in t
    ensures var m1 := SetSlot(m0, t[TablePos(at, 2)], at.pt, e);
            var inside := Slot(m1, e.frame, a.page);
            Walk(m1, t[Root], a) == if e.flags.present && UpperOpen(m0, t[Root], at) && inside.flags.present
              then Some(inside.frame) else None
  {
    hide Slot, SetSlot, Shape, Stored;
    var m1 := SetSlot(m0, t[TablePos(at, 2)], at.pt, e);
    TreeParts(m0, t);
    TablePosAre(at);
    OneSlotChanges(m0, t, TablePos(at, 2), at.pt, e);
    var p1 := Child(Root, at.pdp);
    assert TablePos(at, 2) == Child(p1, at.pd);
    assert p1 in t && Root in t by { assert Shape(t); Parents(t, at); }
    SlotFacts(m0, t, Root, at.pdp);
    SlotFacts(m0, t, p1, at.pd);
    UpperOpenUnfolded(m0, t[Root], at);
  }

  /** What a large page stored in the slot of `at` makes of the walk of `b`. In place of another 2 MiB page (`huge`)
      the code stores it without the page-size bit, so the walk takes the data for a page table; at a frame that is
      not a multiple of 2 MiB the hardware finds reserved bits set. */
  ghost function Stored2Mb(m0: Frames, m1: Frames, root: nat, at: Address, huge: bool,
                           frame: nat, present: bool, b: Address): Option<nat> {
    if !InSlot(at, b) then Walk(m0, root, b)
    else if !present || !UpperOpen(m0, root, at) then None
    else if huge then
      var inside := Slot(m1, frame, b.page);
      if inside.flags.present then Some(inside.frame) else None
    else if frame % 512 != 0 then None
    else Some(frame + b.page)
  }

  ghost predicate SlotFilled(m0: Frames, m1: Frames, root: nat, at: Address, huge: bool, frame: nat, present: bool) {
    forall b :: Walk(m1, root, b) == Stored2Mb(m0, m1, root, at, huge, frame, present, b)
  }

  lemma SlotElsewhere(m0: Frames, m1: Frames, t: Tables, p: Pos, i: Index, q: Pos, j: Index)
    requires SameElsewhere(m0, m1, t, p, i) && q in t && !(q == p && j == i)
    ensures Slot(m1, t[q], j) == Slot(m0, t[q], j)
  {
  }

  /** A write to the slot of `at` changes the walk of no address outside it, whatever is written. */
  lemma OutsideSlotSameWalk(m0: Frames, m1: Frames, t: Tables, at: Address, b: Address)
    requires Tree(m0, t) && !InSlot(at, b) && SameElsewhere(m0, m1, t, TablePos(at, 2), at.pt)
    ensures Root in t && Walk(m1, t[Root], b) == Walk(m0, t[Root], b)
  {
    hide Slot, Tree, SameElsewhere, Level;
    TreeParts(m0, t);
    TablePosAre(at);
    TablePosAre(b);
    var p1, p2, p3 := TablePos(b, 1), TablePos(b, 2), TablePos(b, 3);
    var e4 := Slot(m0, t[Root], b.pdp);
    SlotFactsFrom(m0, t, b);
    SlotElsewhere(m0, m1, t, TablePos(at, 2), at.pt, Root, b.pdp);
    if e4.flags.present {
      var e3 := Slot(m0, e4.frame, b.pd);
      SlotElsewhere(m0, m1, t, TablePos(at, 2), at.pt, p1, b.pd);
      if e3.flags.present {
        var e2 := Slot(m0, e3.frame, b.pt);
        SlotElsewhere(m0, m1, t, TablePos(at, 2), at.pt, p2, b.pt);
        if e2.flags.present && !e2.flags.size {
          SlotElsewhere(m0, m1, t, TablePos(at, 2), at.pt, p3, b.page);
        }
      }
    }
  }

  /** Where the present entries on the path of `a` lead. */
  lemma SlotFactsFrom(m: Frames, t: Tables, a: Address)
    requires Tree(m, t)
    ensures Root in t
    ensures var e4 := Slot(m, t[Root], a.pdp);
            var e3 := Slot(m, e4.frame, a.pd);
            var e2 := Slot(m, e3.frame, a.pt);
            && !e4.flags.size
            && (e4.flags.present ==> TablePos(a, 1) in t && e4.frame == t[TablePos(a, 1)] && !e3.flags.size)
            && (e4.flags.present && e3.flags.present ==> TablePos(a, 2) in t && e3.frame == t[TablePos(a, 2)])
            && (e4.flags.present && e3.flags.present && e2.flags.present && !e2.flags.size ==>
                  TablePos(a, 3) in t && e2.frame == t[TablePos(a, 3)])
  {
    hide Slot;
    TreeParts(m, t);
    TablePosAre(a);
    SlotFacts(m, t, Root, a.pdp);
    if Slot(m, t[Root], a.pdp).flags.present {
      SlotFacts(m, t, TablePos(a, 1), a.pd);
      if Slot(m, t[TablePos(a, 1)], a.pd).flags.present {
        SlotFacts(m, t, TablePos(a, 2), a.pt);
      }
    }
  }

  lemma FilledRemapped(s0: Space, s1: Space, root: nat, at: Address, e: Entry)
    requires Prepared(s0, s1, root, e.flags.present) && HugeAt(s1.mem, s1.tables, at) && !e.flags.size
    requires TablePos(at, 2) in s1.tables && s1.tables[Root] == root
    ensures SlotFilled(s0.mem, SetSlot(s1.mem, s1.tables[TablePos(at, 2)], at.pt, e),
        root, at, true, e.frame, e.flags.present)
  {
    hide Walk, SetSlot, Slot, HugeAt, Tree, PathOpen, UpperOpen,
         TablePos, NoNewHuge, InSlot, SameElsewhere, Shape, Stored;
    TreeParts(s1.mem, s1.tables);
    OneSlotChanges(s1.mem, s1.tables, TablePos(at, 2), at.pt, e);
    var m2 := SetSlot(s1.mem, s1.tables[TablePos(at, 2)], at.pt, e);
    forall b ensures Walk(m2, root, b) == Stored2Mb(s0.mem, m2, root, at, true, e.frame, e.flags.present, b) {
      if InSlot(at, b) {
        RemappedSlotReadsPage(s1.mem, s1.tables, at, e, b);
      } else {
        OutsideSlotSameWalk(s1.mem, m2, s1.tables, at, b);
      }
    }
  }

  lemma FilledMisaligned(s0: Space, s1: Space, root: nat, at: Address, e: Entry)
    requires Prepared(s0, s1, root, e.flags.present) && TablePos(at, 2) in s1.tables && s1.tables[Root] == root
    requires e.flags.size && e.frame % 512 > 1
    ensures SlotFilled(s0.mem, SetSlot(s1.mem, s1.tables[TablePos(at, 2)], at.pt, e),
        root, at, false, e.frame, e.flags.present)
  {
    hide Walk, SetSlot, Slot, HugeAt, Tree, PathOpen, UpperOpen,
         TablePos, NoNewHuge, InSlot, SameElsewhere, Shape, Stored;
    TreeParts(s1.mem, s1.tables);
    OneSlotChanges(s1.mem, s1.tables, TablePos(at, 2), at.pt, e);
    var m2 := SetSlot(s1.mem, s1.tables[TablePos(at, 2)], at.pt, e);
    forall b ensures Walk(m2, root, b) == Stored2Mb(s0.mem, m2, root, at, false, e.frame, e.flags.present, b) {
      if InSlot(at, b) {
        MisalignedReadsNothing(s1.mem, m2, s1.tables, at, e, b);
      } else {
        OutsideSlotSameWalk(s1.mem, m2, s1.tables, at, b);
      }
    }
  }

  lemma MisalignedReadsNothing(m0: Frames, m1: Frames, t: Tables, at: Address, e: Entry, b: Address)
    requires Tree(m0, t) && TablePos(at, 2) in t && SameElsewhere(m0, m1, t, TablePos(at, 2), at.pt) && InSlot(at, b)
    requires Slot(m1, t[TablePos(at, 2)], at.pt) == e && e.flags.size && e.frame % 512 > 1
    ensures Root in t && Walk(m1, t[Root], b) == None
  {
    hide Slot, Stored;
    TreeParts(m0, t);
    TablePosAre(at);
    var p1 := Child(Root, at.pdp);
    Parents(t, at);
    SlotFacts(m0, t, Root, at.pdp);
    SlotFacts(m0, t, p1, at.pd);
    MisalignedHugeFaults(m1, t[Root], b);
  }

  lemma FilledAligned(s0: Space, s1: Space, root: nat, at: Address, frame: nat, present: bool, marked: bool)
    requires MappedHuge(s0, s1, root, at, frame, present, marked) && frame % 512 == 0
    ensures SlotFilled(s0.mem, s1.mem, root, at, false, frame, present)
  {
    hide Walk, UpperOpen, HugeAfter, Kept;
  }

  /** The whole effect of storing a 2 MiB page into a slot without one, after the tables above it were prepared. */
  lemma HugeEffect(s0: Space, s1: Space, root: nat, at: Address, e: Entry)
    requires Root in s0.tables && s0.tables[Root] == root
    requires Prepared(s0, s1, root, e.flags.present) && TablePos(at, 2) in s1.tables
    requires e.flags.size && (e.frame % 512 == 0 || e.frame % 512 == 256)
    ensures var s2 := WithHuge(s1, at, e);
            && SlotFilled(s0.mem, s2.mem, root, at, false, e.frame, e.flags.present)
            && (e.frame % 512 == 0 ==>
                  && MappedHuge(s0, s2, root, at, e.frame, e.flags.present, e.flags.stab)
                  && Tree(s2.mem, s2.tables) && s2.tables.Values <= s2.used <= s2.range && s2.tables[Root] == root)
  {
    hide Tree, Prepared, MappedHuge, SlotFilled, SetSlot, TablePos;
    PreparedTree(s0, s1, root, e.flags.present);
    if e.frame % 512 == 0 {
      var s2 := WithHuge(s1, at, e);
      WriteHugeEffect(s1, at, e);
      assert s2.tables == s1.tables - {TablePos(at, 3)};
      PreparedThenHuge(s0, s1, s2, root, at, e.frame, e.flags.present, e.flags.stab);
      MappedHugeTree(s0, s2, root, at, e.frame, e.flags.present, e.flags.stab);
      FilledAligned(s0, s2, root, at, e.frame, e.flags.present, e.flags.stab);
    } else {
      FilledMisaligned(s0, s1, root, at, e);
    }
  }

  lemma Parents(t: Tables, at: Address)
    requires Shape(t) && TablePos(at, 2) in t
    ensures Root in t && Child(Root, at.pdp) in t
  {
    TablePosAre(at);
  }

  lemma UpperOpenUnfolded(m: Frames, root: nat, at: Address)
    ensures var e4 := Slot(m, root, at.pdp); var e3 := Slot(m, e4.frame, at.pd);
            UpperOpen(m, root, at) <==> e4 == ZERO || (e4.flags.present && (e3 == ZERO || e3.flags.present))
  {
    hide Slot;
    var e4 := Slot(m, root, at.pdp);
    assert Open(m, e4.frame, 1, 1, at) <==> Slot(m, e4.frame, at.pd) == ZERO || Slot(m, e4.frame, at.pd).flags.present;
  }

  /** A path that is not open leads nowhere. */
  lemma ClosedLeadsNowhere(m: Frames, t: Tables, a: Address)
    requires Tree(m, t)
    ensures Root in t && (Walk(m, t[Root], a).Some? ==> PathOpen(m, t[Root], a))
  {
    hide Slot;
    TreeParts(m, t);
    WalkUnfolded(m, t, a);
    if Walk(m, t[Root], a).Some? {
      var e4 := Slot(m, t[Root], a.pdp);
      var e3 := Slot(m, e4.frame, a.pd);
      assert Open(m, e3.frame, 2, 2, a);
      assert Open(m, e4.frame, 1, 2, a);
    }
  }

  // ----- the walk, one table at a time

  /** In a tree the walk never meets a large page above the directory, nor a misaligned one in it. */
  lemma WalkUnfolded(m: Frames, t: Tables, a: Address)
    requires Tree(m, t)
    ensures Root in t
    ensures var e4 := Slot(m, t[Root], a.pdp);
            var e3 := Slot(m, e4.frame, a.pd);
            var e2 := Slot(m, e3.frame, a.pt);
            var e1 := Slot(m, e2.frame, a.page);
            && !e4.flags.size
            && (e4.flags.present ==> !e3.flags.size)
            && (e4.flags.present && e3.flags.present && e2.flags.size ==> e2.frame % 512 == 0)
            && Walk(m, t[Root], a) ==
               if !e4.flags.present || !e3.flags.present || !e2.flags.present then None
               else if e2.flags.size then Some(e2.frame + a.page)
               else if e1.flags.present then Some(e1.frame) else None
  {
    hide Slot;
    TreeParts(m, t);
    SlotFacts(m, t, Root, a.pdp);
    var p1 := Child(Root, a.pdp);
    if Slot(m, t[Root], a.pdp).flags.present {
      SlotFacts(m, t, p1, a.pd);
      if Slot(m, t[p1], a.pd).flags.present {
        SlotFacts(m, t, Child(p1, a.pd), a.pt);
      }
    }
  }
}
