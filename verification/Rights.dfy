/** What the entries of the page tables allow, beyond where they lead: the write and user bits the hardware collects on
    the way to a page (section 4.6 of the Intel SDM, Volume 3A), and what the pager's writes do to them. */
module Rights {
  import opened Memory
  import opened Paging
  import opened PagingSteps
  import opened PagerEffects

  // ----- the walk with access rights

  /** A page that is reached, and whether every entry on the way allows writing, and user mode. */
  datatype Reach = Reach(frame: nat, write: bool, user: bool)

  function Allows(frame: nat, entries: seq<Entry>): Reach {
    Reach(frame, forall e :: e in entries ==> e.flags.rw, forall e :: e in entries ==> e.flags.us)
  }

  /** `Walk`, with the rights of all levels. */
  function Access(mem: Frames, root: nat, a: Address): Option<Reach> {
    var e4 := Slot(mem, root, a.pdp);
    var e3 := Slot(mem, e4.frame, a.pd);
    var e2 := Slot(mem, e3.frame, a.pt);
    var e1 := Slot(mem, e2.frame, a.page);
    match Walk(mem, root, a)
    case None => None
    case Some(frame) =>
      Some(Allows(frame, if e3.flags.size then [e4, e3] else if e2.flags.size then [e4, e3, e2] else [e4, e3, e2, e1]))
  }

  /** The entry through which the table at `q` is reached. */
  ghost function Above(s: Space, q: Pos): Entry {
    if q.Child? && q.parent in s.tables && q.index < 512 then Slot(s.mem, s.tables[q.parent], q.index) else ZERO
  }

  /** The entry of the page at `a`; inside a 2 MiB page the one that splitting it would make. */
  ghost function Leaf(s: Space, a: Address): Entry {
    if TablePos(a, 3) in s.tables then Slot(s.mem, s.tables[TablePos(a, 3)], a.page)
    else if HugeAt(s.mem, s.tables, a) then
      var e := Slot(s.mem, s.tables[TablePos(a, 2)], a.pt);
      Entry(e.frame + a.page, e.flags.(size := false))
    else ZERO
  }

  /** The table entries above a page and its own one decide; a 2 MiB page has one table less above it. */
  lemma AccessIs(s: Space, a: Address)
    requires Tree(s.mem, s.tables)
    ensures Root in s.tables
    ensures var w := Walk(s.mem, s.tables[Root], a);
            var p1, p2, p3 := Above(s, TablePos(a, 1)), Above(s, TablePos(a, 2)), Above(s, TablePos(a, 3));
            var e, small := Leaf(s, a), TablePos(a, 3) in s.tables;
            if w.None? then Access(s.mem, s.tables[Root], a) == None
            else
              && TablePos(a, 1) in s.tables && TablePos(a, 2) in s.tables && w.value == e.frame
              && (!small ==> p3.flags.size && e.flags == p3.flags.(size := false))
              && Access(s.mem, s.tables[Root], a)
                 == Some(Reach(w.value, p1.flags.rw && p2.flags.rw && e.flags.rw && (small ==> p3.flags.rw),
                               p1.flags.us && p2.flags.us && e.flags.us && (small ==> p3.flags.us)))
  {
    hide Slot;
    TreeParts(s.mem, s.tables);
    TablePosAre(a);
    WalkUnfolded(s.mem, s.tables, a);
    SlotFactsFrom(s.mem, s.tables, a);
    if Walk(s.mem, s.tables[Root], a).Some? {
      SlotFacts(s.mem, s.tables, TablePos(a, 2), a.pt);
      var p1, p2, p3 := Above(s, TablePos(a, 1)), Above(s, TablePos(a, 2)), Above(s, TablePos(a, 3));
      AllowsOf3(Leaf(s, a).frame, p1, p2, p3);
      AllowsOf4(Leaf(s, a).frame, p1, p2, p3, Leaf(s, a));
    }
  }

  lemma AllowsOf3(frame: nat, x: Entry, y: Entry, z: Entry)
    ensures Allows(frame, [x, y, z])
            == Reach(frame, x.flags.rw && y.flags.rw && z.flags.rw, x.flags.us && y.flags.us && z.flags.us)
  {
    var all := [x, y, z];
    assert all[0] in all && all[1] in all && all[2] in all;
  }

  lemma AllowsOf4(frame: nat, w: Entry, x: Entry, y: Entry, z: Entry)
    ensures Allows(frame, [w, x, y, z])
            == Reach(frame, w.flags.rw && x.flags.rw && y.flags.rw && z.flags.rw,
                     w.flags.us && x.flags.us && y.flags.us && z.flags.us)
  {
    var all := [w, x, y, z];
    assert all[0] in all && all[1] in all && all[2] in all && all[3] in all;
  }

  // ----- what the pager's writes do to them

  ghost predicate SameLeaves(s0: Space, s1: Space) { forall a :: Leaf(s1, a) == Leaf(s0, a) }

  /** One page entry is `e` now, all others are as they were. */
  ghost predicate LeafSet(s0: Space, s1: Space, at: Address, e: Entry) {
    forall a :: Leaf(s1, a) == if a == at then e else Leaf(s0, a)
  }

  /** The flags a table's entry starts with: those of the entry that is there, of the 2 MiB page that is split for the
      table, or those that were asked for. */
  function Starting(was: Flags, there: bool, flags: Flags): Flags {
    if there then was else if was.size then was.(size := false, stab := true) else flags.(stab := true)
  }

  function Widened(f: Flags, write: bool): Flags { f.(rw := f.rw || write) }

  /** The entry above the table at `q` allows what it starts with, and writing if it is one of `path` and the flags ask
      for that. */
  ghost predicate GrantedAt(s0: Space, s1: Space, path: set<Pos>, flags: Flags, q: Pos) {
    Above(s1, q).flags == Widened(Starting(Above(s0, q).flags, q in s0.tables, flags), flags.rw && q in path)
  }

  lemma StartingThere(was: Flags, flags: Flags)
    ensures Starting(was, true, flags) == was
  {
  }

  lemma StartingNew(was: Flags, now: Flags, flags: Flags)
    requires was.size || now.size ==> was == now
    ensures Starting(was, false, flags) == Starting(now, false, flags)
  {
  }

  lemma WidenedTwice(f: Flags, x: bool, y: bool)
    ensures Widened(Widened(f, x), y) == Widened(f, x || y)
  {
  }

  ghost predicate Granted(s0: Space, s1: Space, path: set<Pos>, flags: Flags) {
    forall q :: q in s1.tables && q.Child? ==> GrantedAt(s0, s1, path, flags, q)
  }

  /** The pages keep their entries, whatever becomes of the tables above. */
  ghost predicate Allowed(s0: Space, s1: Space, path: set<Pos>, flags: Flags) {
    SameLeaves(s0, s1) && Granted(s0, s1, path, flags) && HugeKept(s0, s1)
  }

  /** A 2 MiB page is split or stays as it is, and no new one appears. */
  ghost predicate HugeKept(s0: Space, s1: Space) {
    forall q: Pos :: q.Child? && Level(q) <= 3 ==> HugeKeptAt(s0, s1, q)
  }

  ghost predicate HugeKeptAt(s0: Space, s1: Space, q: Pos) {
    && (Above(s1, q).flags.size ==> Above(s1, q) == Above(s0, q))
    && (Above(s0, q).flags.size ==> q in s1.tables || Above(s1, q) == Above(s0, q))
  }

  /** Whatever was asked for: nothing was granted. */
  ghost predicate AllowedAny(s0: Space, s1: Space) { forall flags :: Allowed(s0, s1, {}, flags) }

  lemma AllowedUnchanged(s: Space)
    ensures AllowedAny(s, s)
  {
    hide Leaf, Above;
  }

  /** Nothing is written when the tables are there and allow what is asked for. */
  lemma AllowedRefl(s: Space, path: set<Pos>, flags: Flags)
    requires forall q :: q in path && q in s.tables && flags.rw ==> Above(s, q).flags.rw
    ensures Allowed(s, s, path, flags)
  {
    hide Leaf, Above;
  }

  /** The tables whose entries are the two upper ones on the path of `at`. */
  ghost function Upper(at: Address): set<Pos> { {TablePos(at, 1), TablePos(at, 2)} }

  lemma UpperAre(at: Address)
    ensures forall q :: q in Upper(at) <==> q == TablePos(at, 1) || q == TablePos(at, 2)
  {
  }

  /** Of the path, only the tables that are there matter. */
  lemma OnlyUpper(s0: Space, s1: Space, path: set<Pos>, at: Address, flags: Flags)
    requires Allowed(s0, s1, path, flags) && forall q :: q in s1.tables ==> (q in path <==> q in Upper(at))
    ensures Allowed(s0, s1, Upper(at), flags)
  {
    hide SameLeaves, HugeKept, Upper, Above;
    forall q | q in s1.tables && q.Child? ensures GrantedAt(s0, s1, Upper(at), flags, q) {
      assert GrantedAt(s0, s1, path, flags, q);
    }
  }

  lemma AllowedTransitive(s0: Space, s1: Space, s2: Space, p: set<Pos>, q: set<Pos>, flags: Flags)
    requires Allowed(s0, s1, p, flags) && Allowed(s1, s2, q, flags)
    requires Extends(s0.tables, s1.tables) && Extends(s1.tables, s2.tables) && Shape(s2.tables)
    requires forall x :: x in p ==> x in s1.tables
    ensures Allowed(s0, s2, p + q, flags)
  {
    hide Leaf, Slot, Above, Shape, Starting, Widened;
    forall x | x in s2.tables && x.Child? ensures GrantedAt(s0, s2, p + q, flags, x) {
      LevelsEnd(s2, x);
      assert HugeKeptAt(s0, s1, x) && GrantedAt(s1, s2, q, flags, x);
      if x in s1.tables {
        assert GrantedAt(s0, s1, p, flags, x);
        StartingThere(Above(s1, x).flags, flags);
        WidenedTwice(Starting(Above(s0, x).flags, x in s0.tables, flags), flags.rw && x in p, flags.rw && x in q);
      } else {
        StartingNew(Above(s0, x).flags, Above(s1, x).flags, flags);
      }
    }
    forall x: Pos | x.Child? && Level(x) <= 3 ensures HugeKeptAt(s0, s2, x) {
      assert HugeKeptAt(s0, s1, x) && HugeKeptAt(s1, s2, x);
    }
  }

  lemma AllowedSteps(s0: Space, s1: Space, s2: Space, root: nat, present: bool, p: set<Pos>, q: set<Pos>, flags: Flags)
    requires Prepared(s0, s1, root, present) && Prepared(s1, s2, root, present)
    requires Allowed(s0, s1, p, flags) && Allowed(s1, s2, q, flags) && forall x :: x in p ==> x in s1.tables
    ensures Allowed(s0, s2, p + q, flags)
  {
    hide Allowed;
    PreparedTree(s1, s2, root, present);
    TreeParts(s2.mem, s2.tables);
    AllowedTransitive(s0, s1, s2, p, q, flags);
  }

  /** A write to slot `i` of table `p` leaves all other entries above tables alone. */
  lemma AboveElsewhere(s0: Space, s1: Space, p: Pos, i: Index, q: Pos)
    requires SameElsewhere(s0.mem, s1.mem, s0.tables, p, i) && q != Child(p, i)
    requires q.Child? && q.parent in s0.tables && q.parent in s1.tables && s1.tables[q.parent] == s0.tables[q.parent]
    ensures Above(s1, q) == Above(s0, q)
  {
    hide Slot;
  }

  lemma NewTableAllowed(s0: Space, s1: Space, p: Pos, i: Index, f: nat, flags: Flags)
    requires Tree(s0.mem, s0.tables) && p in s0.tables && f !in s0.tables.Values && Level(p) < 3
    requires Slot(s0.mem, s0.tables[p], i) == ZERO && flags.stab && !flags.size
    requires s1.mem == Hang(s0.mem, s0.tables, p, i, f, EmptyTable(), flags) && s1.tables == s0.tables[Child(p, i) := f]
    ensures Allowed(s0, s1, {}, flags)
  {
    hide Slot, Hang, EmptyTable, SameElsewhere, Shape, Stored, SlotsOk, Leaf, TablePos, Tree;
    TreeParts(s0.mem, s0.tables);
    EmptyTableIsZero();
    HangSlots(s0.mem, s0.tables, p, i, f, EmptyTable(), flags);
    NoGrandchildren(s0.tables, s0.mem, p, i);
    forall a ensures Leaf(s1, a) == Leaf(s0, a) { NewTableLeaf(s0, s1, p, i, f, a); }
    forall q | q in s1.tables && q.Child? ensures GrantedAt(s0, s1, {}, flags, q) {
      if q != Child(p, i) {
        ParentIsThere(s0, q);
        AboveElsewhere(s0, s1, p, i, q);
      }
    }
    forall q: Pos | q.Child? && Level(q) <= 3 ensures HugeKeptAt(s0, s1, q) {
      if q.parent in s0.tables && q != Child(p, i) { AboveElsewhere(s0, s1, p, i, q); }
    }
  }

  lemma ParentIsThere(s: Space, q: Pos)
    requires Shape(s.tables) && q in s.tables && q.Child?
    ensures q.parent in s.tables && q.index < 512
  {
  }

  lemma NewTableLeaf(s0: Space, s1: Space, p: Pos, i: Index, f: nat, a: Address)
    requires p in s0.tables && Level(p) < 3 && s1.tables == s0.tables[Child(p, i) := f]
    requires SameElsewhere(s0.mem, s1.mem, s0.tables, p, i) && forall j: Index :: Slot(s1.mem, f, j) == ZERO
    requires Slot(s0.mem, s0.tables[p], i) == ZERO && !Slot(s1.mem, s0.tables[p], i).flags.size
    requires Child(p, i) !in s0.tables && forall j :: Child(Child(p, i), j) !in s0.tables
    ensures Leaf(s1, a) == Leaf(s0, a)
  {
    hide Slot;
    TablePosAre(a);
    assert Level(TablePos(a, 3)) == 3;
  }

  lemma GrantAllowed(s0: Space, s1: Space, p: Pos, i: Index, flags: Flags)
    requires Tree(s0.mem, s0.tables) && p in s0.tables && Level(p) < 3 && flags.rw
    requires var e := Slot(s0.mem, s0.tables[p], i); e != ZERO && !e.flags.size
    requires s1.mem == SetSlot(s0.mem, s0.tables[p], i, GrantWrite(Slot(s0.mem, s0.tables[p], i)))
    requires s1.tables == s0.tables
    ensures Allowed(s0, s1, {Child(p, i)}, flags)
  {
    hide Slot, SetSlot, SameElsewhere, Shape, Stored, SlotsOk, Leaf, TablePos, Tree;
    TreeParts(s0.mem, s0.tables);
    SlotFacts(s0.mem, s0.tables, p, i);
    var e := GrantWrite(Slot(s0.mem, s0.tables[p], i));
    OneSlotChanges(s0.mem, s0.tables, p, i, e);
    forall a ensures Leaf(s1, a) == Leaf(s0, a) { InnerSlotLeaf(s0, s1, p, i, a); }
    forall q | q in s1.tables && q.Child? ensures GrantedAt(s0, s1, {Child(p, i)}, flags, q) {
      if q != Child(p, i) {
        ParentIsThere(s0, q);
        AboveElsewhere(s0, s1, p, i, q);
      }
    }
    forall q: Pos | q.Child? && Level(q) <= 3 ensures HugeKeptAt(s0, s1, q) {
      if q.parent in s0.tables && q != Child(p, i) { AboveElsewhere(s0, s1, p, i, q); }
    }
  }

  /** Writing a slot that leads to a table, before and after, changes no page entry. */
  lemma InnerSlotLeaf(s0: Space, s1: Space, p: Pos, i: Index, a: Address)
    requires p in s0.tables && Level(p) < 3 && s1.tables == s0.tables && Child(p, i) in s0.tables
    requires SameElsewhere(s0.mem, s1.mem, s0.tables, p, i)
    ensures Leaf(s1, a) == Leaf(s0, a)
  {
    hide Slot;
    TablePosAre(a);
    assert Level(TablePos(a, 3)) == 3;
  }

  lemma UnfoldAllowed(s0: Space, s1: Space, p: Pos, i: Index, f: nat)
    requires Tree(s0.mem, s0.tables) && p in s0.tables && f !in s0.tables.Values && Level(p) < 3
    requires Slot(s0.mem, s0.tables[p], i).flags.size
    requires s1.mem == Unfolded(s0.mem, s0.tables, p, i, f) && s1.tables == s0.tables[Child(p, i) := f]
    ensures AllowedAny(s0, s1)
  {
    hide Slot, SetSlot, SameElsewhere, Shape, Stored, SlotsOk, Leaf, TablePos, Tree, Unfolded;
    TreeParts(s0.mem, s0.tables);
    SizeIsNotZero(Slot(s0.mem, s0.tables[p], i));
    SlotFacts(s0.mem, s0.tables, p, i);
    UnfoldSlots(s0.mem, s0.tables, p, i, f);
    NoGrandchildren(s0.tables, s0.mem, p, i);
    forall a ensures Leaf(s1, a) == Leaf(s0, a) { UnfoldLeaf(s0, s1, p, i, f, a); }
    forall q, flags | q in s1.tables && q.Child? ensures GrantedAt(s0, s1, {}, flags, q) {
      if q != Child(p, i) {
        ParentIsThere(s0, q);
        AboveElsewhere(s0, s1, p, i, q);
      }
    }
    forall q: Pos | q.Child? && Level(q) <= 3 ensures HugeKeptAt(s0, s1, q) {
      if q.parent in s0.tables && q != Child(p, i) { AboveElsewhere(s0, s1, p, i, q); }
    }
  }

  lemma UnfoldLeaf(s0: Space, s1: Space, p: Pos, i: Index, f: nat, a: Address)
    requires p in s0.tables && Level(p) == 2 && Child(p, i) !in s0.tables && s1.tables == s0.tables[Child(p, i) := f]
    requires SameElsewhere(s0.mem, s1.mem, s0.tables, p, i)
    requires var e := Slot(s0.mem, s0.tables[p], i);
             && e.flags.size && !Slot(s1.mem, s0.tables[p], i).flags.size
             && forall j: Index :: Slot(s1.mem, f, j) == Entry(e.frame + j, e.flags.(size := false))
    ensures Leaf(s1, a) == Leaf(s0, a)
  {
    hide Slot;
    TablePosAre(a);
    assert Level(TablePos(a, 3)) == 3;
  }

  lemma WriteLeafAllowed(s0: Space, s1: Space, at: Address, e: Entry, flags: Flags)
    requires Tree(s0.mem, s0.tables) && TablePos(at, 3) in s0.tables
    requires s1.mem == SetSlot(s0.mem, s0.tables[TablePos(at, 3)], at.page, e) && s1.tables == s0.tables
    ensures LeafSet(s0, s1, at, e) && Granted(s0, s1, {}, flags)
  {
    hide Slot, SetSlot, SameElsewhere, Shape, Stored, SlotsOk, Leaf, TablePos, Tree;
    TreeParts(s0.mem, s0.tables);
    var p := TablePos(at, 3);
    OneSlotChanges(s0.mem, s0.tables, p, at.page, e);
    forall a ensures Leaf(s1, a) == if a == at then e else Leaf(s0, a) { OneLeaf(s0, s1, at, e, a); }
    forall q | q in s1.tables && q.Child? ensures GrantedAt(s0, s1, {}, flags, q) {
      ParentIsThere(s0, q);
      LevelsEnd(s0, q);
      AboveElsewhere(s0, s1, p, at.page, q);
    }
  }

  lemma LevelsEnd(s: Space, q: Pos)
    requires Shape(s.tables) && q in s.tables
    ensures Level(q) <= 3
  {
  }

  lemma OneLeaf(s0: Space, s1: Space, at: Address, e: Entry, a: Address)
    requires TablePos(at, 3) in s0.tables && s1.tables == s0.tables
    requires SameElsewhere(s0.mem, s1.mem, s0.tables, TablePos(at, 3), at.page)
    requires Slot(s1.mem, s0.tables[TablePos(at, 3)], at.page) == e
    ensures Leaf(s1, a) == if a == at then e else Leaf(s0, a)
  {
    hide Slot;
    TablePosAre(a);
    TablePosAre(at);
    assert Level(TablePos(a, 2)) == 2 && Level(TablePos(at, 3)) == 3;
  }

  /** The upper tables that are there keep their user bit, and allow writing at least as before. */
  ghost predicate RightsKept(s0: Space, s1: Space, write: bool) {
    forall q :: q in s0.tables && q.Child? && Level(q) <= 2 ==> q in s1.tables && RightsKeptAt(s0, s1, write, q)
  }

  ghost predicate RightsKeptAt(s0: Space, s1: Space, write: bool, q: Pos) {
    var was, now := Above(s0, q).flags, Above(s1, q).flags;
    now.us == was.us && (was.rw ==> now.rw) && (now.rw ==> was.rw || write)
  }

  /** The two upper tables on the path of `a` are there, and their entries allow writing. */
  ghost predicate UpperAllows(s: Space, a: Address) {
    && TablePos(a, 1) in s.tables && Above(s, TablePos(a, 1)).flags.rw
    && TablePos(a, 2) in s.tables && Above(s, TablePos(a, 2)).flags.rw
  }

  /** And writing is allowed above `at` if it was asked for. */
  ghost predicate UpperKept(s0: Space, s1: Space, at: Address, write: bool) {
    RightsKept(s0, s1, write) && (write ==> UpperAllows(s1, at))
  }

  /** What `page_4_kb` leaves: the entry of its page, with the PAT bit in its place for pages, and what the entries
      above tables allow. */
  ghost predicate Leaves4Kb(s0: Space, s1: Space, at: Address, frame: nat, flags: Flags) {
    && LeafSet(s0, s1, at, Entry(frame, flags.(pat := false, size := flags.pat)))
    && Granted(s0, s1, Upper(at), flags.(pat := false)) && UpperKept(s0, s1, at, flags.rw)
  }

  lemma GrantedKeeps(s0: Space, s1: Space, path: set<Pos>, flags: Flags)
    requires Granted(s0, s1, path, flags)
    requires forall q :: q in s0.tables && Level(q) <= 2 ==> q in s1.tables
    ensures RightsKept(s0, s1, flags.rw)
  {
    hide Above, GrantedAt;
    forall q | q in s0.tables && q.Child? && Level(q) <= 2 ensures RightsKeptAt(s0, s1, flags.rw, q) {
      GrantedBits(s0, s1, path, flags, q);
    }
  }

  lemma UpperGranted(s0: Space, s1: Space, at: Address, flags: Flags)
    requires Granted(s0, s1, Upper(at), flags) && TablePos(at, 1) in s1.tables && TablePos(at, 2) in s1.tables
    requires forall q :: q in s0.tables && Level(q) <= 2 ==> q in s1.tables
    ensures UpperKept(s0, s1, at, flags.rw)
  {
    hide Above, GrantedAt, Granted, Before;
    GrantedKeeps(s0, s1, Upper(at), flags);
    GrantedOn(s0, s1, at, flags, at);
  }

  lemma RightsUnchanged(s: Space, write: bool)
    ensures RightsKept(s, s, write)
  {
    hide Above;
  }

  lemma RightsKeptOn(s0: Space, s1: Space, s2: Space, write: bool)
    requires RightsKept(s0, s1, write) && RightsKept(s1, s2, write)
    ensures RightsKept(s0, s2, write)
    ensures forall a :: UpperAllows(s1, a) ==> UpperAllows(s2, a)
  {
    hide Above;
    forall q | q in s0.tables && q.Child? && Level(q) <= 2 ensures RightsKeptAt(s0, s2, write, q) {
      assert RightsKeptAt(s0, s1, write, q) && RightsKeptAt(s1, s2, write, q);
    }
    forall a | UpperAllows(s1, a) ensures UpperAllows(s2, a) {
      assert Level(TablePos(a, 1)) == 1 && Level(TablePos(a, 2)) == 2;
      assert RightsKeptAt(s1, s2, write, TablePos(a, 1)) && RightsKeptAt(s1, s2, write, TablePos(a, 2));
    }
  }

  /** A failed attempt. */
  ghost predicate Untouched(s0: Space, s1: Space, write: bool) { SameLeaves(s0, s1) && RightsKept(s0, s1, write) }

  lemma NothingTouched(s: Space, write: bool)
    ensures Untouched(s, s, write)
  {
    RightsUnchanged(s, write);
  }

  lemma AllowedUntouched(s0: Space, s1: Space, root: nat, present: bool, path: set<Pos>, flags: Flags)
    requires Prepared(s0, s1, root, present) && Allowed(s0, s1, path, flags)
    ensures Untouched(s0, s1, flags.rw)
  {
    hide SameLeaves, Granted, HugeKept;
    PreparedExtends(s0, s1, root, present);
    GrantedKeeps(s0, s1, path, flags);
  }

  lemma PreparedExtends(s0: Space, s1: Space, root: nat, present: bool)
    requires Prepared(s0, s1, root, present)
    ensures forall q :: q in s0.tables ==> q in s1.tables
  {
    hide Kept, SameWalk, OpenAfter, NoNewHuge, HugeSplits;
  }

  lemma GrantedThen(s0: Space, s1: Space, s2: Space, path: set<Pos>, flags: Flags)
    requires Granted(s0, s1, path, flags) && Granted(s1, s2, {}, flags) && s2.tables.Keys <= s1.tables.Keys
    ensures Granted(s0, s2, path, flags)
  {
    hide Above;
    forall x | x in s2.tables && x.Child? ensures GrantedAt(s0, s2, path, flags, x) {
      assert x in s1.tables.Keys;
      assert GrantedAt(s0, s1, path, flags, x) && GrantedAt(s1, s2, {}, flags, x);
    }
  }

  /** Tables prepared, then one page entry written. */
  lemma AllowedThenSet(s0: Space, s1: Space, s2: Space, path: set<Pos>, at: Address, e: Entry, flags: Flags)
    requires Allowed(s0, s1, path, flags) && LeafSet(s1, s2, at, e) && Granted(s1, s2, {}, flags)
    requires s2.tables == s1.tables
    ensures LeafSet(s0, s2, at, e) && Granted(s0, s2, path, flags)
  {
    hide Leaf, Granted, HugeKept;
    GrantedThen(s0, s1, s2, path, flags);
  }

  /** The "table allocated" bit of the flags makes no difference. */
  lemma AllowedSame(s0: Space, s1: Space, path: set<Pos>, f: Flags, g: Flags)
    requires Allowed(s0, s1, path, f) && f.(stab := true) == g.(stab := true)
    ensures Allowed(s0, s1, path, g)
  {
    hide Leaf, Above;
    assert f.rw == f.(stab := true).rw == g.(stab := true).rw == g.rw;
    forall x | x in s1.tables && x.Child? ensures GrantedAt(s0, s1, path, g, x) {
      assert GrantedAt(s0, s1, path, f, x);
    }
  }

  // ----- 2 MiB pages

  /** The 512 pages of a slot are those of the 2 MiB page `e` now, all others are as they were. */
  ghost predicate LeavesSet(s0: Space, s1: Space, at: Address, e: Entry) {
    forall a :: Leaf(s1, a)
                == if InSlot(at, a) then Entry(e.frame + a.page, e.flags.(size := false)) else Leaf(s0, a)
  }

  lemma WriteHugeAllowed(s0: Space, s1: Space, at: Address, e: Entry, flags: Flags)
    requires Tree(s0.mem, s0.tables) && TablePos(at, 2) in s0.tables && s1 == WithHuge(s0, at, e) && e.flags.size
    ensures LeavesSet(s0, s1, at, e) && Granted(s0, s1, {}, flags)
  {
    hide Slot, SetSlot, SameElsewhere, Shape, Stored, SlotsOk, Leaf, TablePos, Tree, InSlot;
    TreeParts(s0.mem, s0.tables);
    var p := TablePos(at, 2);
    OneSlotChanges(s0.mem, s0.tables, p, at.pt, e);
    TablePosAre(at);
    forall a ensures Leaf(s1, a)
                     == if InSlot(at, a) then Entry(e.frame + a.page, e.flags.(size := false)) else Leaf(s0, a) {
      HugeLeaf(s0, s1, at, e, a);
    }
    forall q | q in s1.tables && q.Child? ensures GrantedAt(s0, s1, {}, flags, q) {
      ParentIsThere(s0, q);
      LevelsEnd(s0, q);
      assert Level(TablePos(at, 3)) == 3;
      AboveElsewhere(s0, s1, p, at.pt, q);
    }
  }

  lemma HugeLeaf(s0: Space, s1: Space, at: Address, e: Entry, a: Address)
    requires TablePos(at, 2) in s0.tables && s1.tables == s0.tables - {TablePos(at, 3)} && e.flags.size
    requires SameElsewhere(s0.mem, s1.mem, s0.tables, TablePos(at, 2), at.pt)
    requires Slot(s1.mem, s0.tables[TablePos(at, 2)], at.pt) == e
    ensures Leaf(s1, a) == if InSlot(at, a) then Entry(e.frame + a.page, e.flags.(size := false)) else Leaf(s0, a)
  {
    hide Slot;
    TablePosAre(a);
    TablePosAre(at);
    assert Level(TablePos(at, 2)) == Level(TablePos(a, 2)) == 2;
    assert Level(TablePos(at, 3)) == Level(TablePos(a, 3)) == 3;
  }

  lemma AllowedThenHuge(s0: Space, s1: Space, s2: Space, path: set<Pos>, at: Address, e: Entry, flags: Flags)
    requires Allowed(s0, s1, path, flags) && LeavesSet(s1, s2, at, e) && Granted(s1, s2, {}, flags)
    requires s2.tables.Keys <= s1.tables.Keys
    ensures LeavesSet(s0, s2, at, e) && Granted(s0, s2, path, flags)
  {
    hide Leaf, Granted, HugeKept, InSlot;
    GrantedThen(s0, s1, s2, path, flags);
  }

  // ----- the rights of the pages afterwards

  /** What the entry above a table allowed beforehand, with what was asked for where there was none. */
  ghost function Before(s: Space, q: Pos, flags: Flags): Flags {
    if q in s.tables || Above(s, q).flags.size then Above(s, q).flags else flags
  }

  lemma GrantedBits(s0: Space, s1: Space, path: set<Pos>, flags: Flags, q: Pos)
    requires GrantedAt(s0, s1, path, flags, q)
    ensures var was, now := Before(s0, q, flags), Above(s1, q).flags;
            now.rw == (was.rw || (flags.rw && q in path)) && now.us == was.us
  {
    hide Above;
    StartingBits(Above(s0, q).flags, q in s0.tables, flags, flags.rw && q in path);
  }

  lemma StartingBits(was: Flags, there: bool, flags: Flags, write: bool)
    ensures var now := Widened(Starting(was, there, flags), write);
            && now.rw == ((if there || was.size then was else flags).rw || write)
            && now.us == (if there || was.size then was else flags).us
  {
  }

  /** The three entries above a page. */
  lemma GrantedOn(s0: Space, s1: Space, at: Address, flags: Flags, a: Address)
    requires Granted(s0, s1, Upper(at), flags) && TablePos(a, 1) in s1.tables && TablePos(a, 2) in s1.tables
    ensures var p1, p2, p3 := TablePos(a, 1), TablePos(a, 2), TablePos(a, 3);
            var was1, was2, was3 := Before(s0, p1, flags), Before(s0, p2, flags), Before(s0, p3, flags);
            var now1, now2, now3 := Above(s1, p1).flags, Above(s1, p2).flags, Above(s1, p3).flags;
            && now1.rw == (was1.rw || (flags.rw && p1 in Upper(at))) && now1.us == was1.us
            && now2.rw == (was2.rw || (flags.rw && p2 in Upper(at))) && now2.us == was2.us
            && (p3 in s1.tables ==> now3.rw == was3.rw && now3.us == was3.us)
  {
    hide Before, Above, GrantedAt;
    TablePosAre(a);
    assert Level(TablePos(a, 3)) == 3 && Level(TablePos(at, 1)) == 1 && Level(TablePos(at, 2)) == 2;
    GrantedBits(s0, s1, Upper(at), flags, TablePos(a, 1));
    GrantedBits(s0, s1, Upper(at), flags, TablePos(a, 2));
    if TablePos(a, 3) in s1.tables { GrantedBits(s0, s1, Upper(at), flags, TablePos(a, 3)); }
  }

  /** What `page_4_kb` makes of the rights of the page. User code reaches it when it is asked for and every table entry
      that was there lets it. Writing is granted on the two upper levels only: the page can be written when it is asked
      for and the directory entry does not stand in the way. */
  lemma RightsOfPage(s0: Space, s1: Space, root: nat, at: Address, frame: nat, flags: Flags)
    requires Root in s0.tables && s0.tables[Root] == root && Mapped(s0, s1, root, at, frame, flags.present)
    requires Leaves4Kb(s0, s1, at, frame, flags)
    requires TablePos(at, 1) in s1.tables && TablePos(at, 2) in s1.tables && TablePos(at, 3) in s1.tables
    ensures flags.rw ==> Above(s1, TablePos(at, 1)).flags.rw && Above(s1, TablePos(at, 2)).flags.rw
    ensures var p1, p2, p3 := Before(s0, TablePos(at, 1), flags), Before(s0, TablePos(at, 2), flags),
                              Before(s0, TablePos(at, 3), flags);
            Access(s1.mem, root, at)
            == if flags.present && PathOpen(s0.mem, root, at)
               then Some(Reach(frame, flags.rw && p3.rw, flags.us && p1.us && p2.us && p3.us))
               else None
  {
    hide Access, Walk, Above, Leaf, Tree, TablePos, Granted, Before, PathOpen;
    MappedFacts(s0, s1, root, at, frame, flags.present, at);
    AccessIs(s1, at);
    GrantedOn(s0, s1, at, flags.(pat := false), at);
    LowBefore(s0, TablePos(at, 1), flags);
    LowBefore(s0, TablePos(at, 2), flags);
    LowBefore(s0, TablePos(at, 3), flags);
  }

  lemma LowBefore(s: Space, q: Pos, flags: Flags)
    ensures var f, g := Before(s, q, flags.(pat := false)), Before(s, q, flags); f.rw == g.rw && f.us == g.us
  {
    hide Above;
  }

  lemma MappedFacts(s0: Space, s1: Space, root: nat, at: Address, frame: nat, present: bool, a: Address)
    requires Root in s0.tables && s0.tables[Root] == root && Mapped(s0, s1, root, at, frame, present)
    ensures Tree(s1.mem, s1.tables) && Extends(s0.tables, s1.tables)
    ensures Root in s1.tables && s1.tables[Root] == root
    ensures a == at ==> Walk(s1.mem, root, a) == if present && PathOpen(s0.mem, root, at) then Some(frame) else None
    ensures a != at ==> Walk(s1.mem, root, a) == Walk(s0.mem, root, a)
  {
    hide Walk, PathOpen, OpenAfter, NoNewHuge, HugeSplits, Tree;
  }

  /** All other pages are reached as before, keep their user bit, and can be written at least as before. */
  lemma RightsOfOthers(s0: Space, s1: Space, root: nat, at: Address, frame: nat, flags: Flags, a: Address)
    requires Tree(s0.mem, s0.tables) && Root in s0.tables && s0.tables[Root] == root
    requires Mapped(s0, s1, root, at, frame, flags.present) && Leaves4Kb(s0, s1, at, frame, flags) && a != at
    ensures var r0, r1 := Access(s0.mem, root, a), Access(s1.mem, root, a);
            if r0.None? then r1.None?
            else
              && r1.Some? && r1.value.frame == r0.value.frame && r1.value.user == r0.value.user
              && (r0.value.write ==> r1.value.write)
              && (r1.value.write && !r0.value.write ==> flags.rw && a.pdp == at.pdp)
  {
    hide Access, Walk, Above, Leaf, Tree, TablePos, Granted, Upper, PathOpen;
    MappedFacts(s0, s1, root, at, frame, flags.present, a);
    AccessIs(s0, a);
    AccessIs(s1, a);
    if Walk(s0.mem, root, a).Some? {
      GrantedOn(s0, s1, at, flags.(pat := false), a);
      UpperShared(at, a);
    }
  }

  /** In the slot of a 2 MiB page, writing is granted all the way. */
  lemma RightsOfLarge(s0: Space, s1: Space, at: Address, e: Entry, flags: Flags, a: Address)
    requires Tree(s1.mem, s1.tables) && TablePos(at, 1) in s1.tables && TablePos(at, 2) in s1.tables
    requires LeavesSet(s0, s1, at, e) && Granted(s0, s1, Upper(at), flags) && TablePos(at, 3) !in s1.tables
    requires e.flags.rw == flags.rw && e.flags.us == flags.us && InSlot(at, a)
    ensures Root in s1.tables
    ensures var r := Access(s1.mem, s1.tables[Root], a);
            r.Some? ==>
              && r.value.frame == e.frame + a.page && (r.value.write <==> flags.rw)
              && (r.value.user <==> flags.us && Before(s0, TablePos(at, 1), flags).us
                                    && Before(s0, TablePos(at, 2), flags).us)
  {
    hide Access, Walk, Above, Leaf, Tree, TablePos, Granted, Before, InSlot;
    SlotPath(at, a);
    AccessIs(s1, a);
    GrantedOn(s0, s1, at, flags, at);
  }

  lemma UpperShared(at: Address, a: Address)
    ensures TablePos(a, 1) in Upper(at) || TablePos(a, 2) in Upper(at) ==> a.pdp == at.pdp
  {
    TablePosAre(at);
    TablePosAre(a);
  }
}
