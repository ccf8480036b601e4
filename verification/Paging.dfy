/** Four-level page tables as the processor reads them, and the tree the pager keeps in them.

`Walk` is the hardware's own translation (section 4.5 of Intel SDM Volume 3A). It knows nothing about
the pager and is the reference every operation of the pager is proved against. */
module Paging {
  import opened Memory

  // ----- table entries

  /** The 16 flag bits of a `u16`. Bit 7 (`size`) is the page-size bit of a directory entry and the PAT
      bit of a page entry; bit 8 (`stab`) is where the pager remembers that it allocated the table below;
      `other` holds bits 3, 4, 6, 9, 10 and 11, which the code only passes on, and `high` bits 13 to 15. */
  datatype Flags = Flags(present: bool, rw: bool, us: bool, accessed: bool, size: bool, stab: bool, pat: bool,
                         other: nat, high: nat)

  const NO_FLAGS := Flags(false, false, false, false, false, false, false, 0, 0)

  /** `flags & 0xF0A0 != 0`. */
  predicate Rejected(f: Flags) { f.high != 0 || f.pat || f.size || f.accessed }

  /** Only the low twelve bits are in use. */
  predicate Low(f: Flags) { f.high == 0 && !f.pat }

  /** A 64-bit entry: a page-frame number and the low twelve bits. */
  datatype Entry = Entry(frame: nat, flags: Flags)

  const ZERO := Entry(0, NO_FLAGS)

  type Index = i: nat | i < 512

  type Frames = map<nat, seq<Entry>>

  function EmptyTable(): seq<Entry> { seq(512, _ => ZERO) }

  function Slot(mem: Frames, f: nat, i: Index): Entry {
    if f in mem && i < |mem[f]| then mem[f][i] else ZERO
  }

  function SetSlot(mem: Frames, f: nat, i: Index, e: Entry): Frames {
    if f in mem && i < |mem[f]| then mem[f := mem[f][i := e]] else mem
  }

  // ----- virtual addresses

  datatype Address = Address(pdp: Index, pd: Index, pt: Index, page: Index)

  function Translate(virt: nat): Address {
    var v := virt / PAGE;
    Address(v / 512 / 512 / 512 % 512, v / 512 / 512 % 512, v / 512 % 512, v % 512)
  }

  /** The indices are the bits the processor takes for them: 47 to 39, 38 to 30, 29 to 21 and 20 to 12. */
  lemma TranslateBits(virt: nat)
    ensures Translate(virt).pdp == virt / 0x80_0000_0000 % 512 && Translate(virt).pd == virt / 0x4000_0000 % 512
    ensures Translate(virt).pt == virt / 0x20_0000 % 512 && Translate(virt).page == virt / 0x1000 % 512
  {
    var v := virt / 0x1000;
    var w := v / 512;
    assert w == virt / 0x20_0000;
    assert w / 512 == virt / 0x4000_0000;
    assert w / 512 / 512 == virt / 0x80_0000_0000;
  }

  function IntoAddress(a: Address): nat {
    a.page * 0x1000 + a.pt * 0x20_0000 + a.pd * 0x4000_0000 + a.pdp * 0x80_0000_0000
  }

  const SPACE: nat := 0x1_0000_0000_0000

  lemma TranslateInto(a: Address)
    ensures Translate(IntoAddress(a)) == a
    ensures IntoAddress(a) % PAGE == 0 && IntoAddress(a) < SPACE
  {
    var v := IntoAddress(a) / PAGE;
    assert v == a.page + 512 * (a.pt + 512 * (a.pd + 512 * a.pdp));
    assert v / 512 == a.pt + 512 * (a.pd + 512 * a.pdp);
    assert v / 512 / 512 == a.pd + 512 * a.pdp;
  }

  /** Addresses are told apart by their low 48 bits only. */
  lemma IntoTranslate(virt: nat)
    ensures IntoAddress(Translate(virt)) == (virt - virt % PAGE) % SPACE
  {
    var v := virt / PAGE;
    var w := v / 512;
    var x := w / 512;
    var y := x / 512;
    assert v == v % 512 + 512 * (w % 512) + 512 * 512 * (x % 512) + 512 * 512 * 512 * (y % 512)
      + 0x10_0000_0000 * (y / 512);
    var a := Translate(virt);
    assert IntoAddress(a) + SPACE * (y / 512) == v * PAGE;
    Reduce(IntoAddress(a), y / 512);
  }

  lemma Reduce(x: nat, q: nat)
    requires x < SPACE
    ensures (x + SPACE * q) % SPACE == x
  {
  }

  // ----- the hardware walk

  function Walk(mem: Frames, root: nat, a: Address): Option<nat> {
    var e4 := Slot(mem, root, a.pdp);
    if !e4.flags.present || e4.flags.size then None
    else
      var e3 := Slot(mem, e4.frame, a.pd);
      if !e3.flags.present then None
      else if e3.flags.size then
        if e3.frame % 0x4_0000 > 1 then None else Some(e3.frame - e3.frame % 0x4_0000 + a.pt * 512 + a.page)
      else
        var e2 := Slot(mem, e3.frame, a.pt);
        if !e2.flags.present then None
        else if e2.flags.size then
          if e2.frame % 512 > 1 then None else Some(e2.frame - e2.frame % 512 + a.page)
        else
          var e1 := Slot(mem, e2.frame, a.page);
          if e1.flags.present then Some(e1.frame) else None
  }

  ghost predicate SameWalk(m0: Frames, m1: Frames, root: nat) {
    forall a :: Walk(m1, root, a) == Walk(m0, root, a)
  }

  /** `m1` translates like `m0` except that `at` now translates to `frame`. */
  ghost predicate PointUpdate(m0: Frames, m1: Frames, root: nat, at: Address, frame: Option<nat>) {
    forall a :: Walk(m1, root, a) == if a == at then frame else Walk(m0, root, a)
  }

  /** Along the path of `a`, from the table in `frame` down to level `stop`, every entry up to the first
      empty one is present. */
  predicate Open(mem: Frames, frame: nat, level: nat, stop: nat, a: Address)
    decreases stop + 1 - level
  {
    level > stop ||
    var e := Slot(mem, frame, IndexAt(a, level));
    e == ZERO || (e.flags.present && Open(mem, e.frame, level + 1, stop, a))
  }

  /** The three directory entries above a page entry are present as far as they exist. */
  predicate PathOpen(mem: Frames, root: nat, a: Address) { Open(mem, root, 0, 2, a) }

  /** The same for the two entries above a directory slot. */
  predicate UpperOpen(mem: Frames, root: nat, a: Address) { Open(mem, root, 0, 1, a) }

  // ----- the tree of tables

  /** Where a table hangs: the root, or below slot `index` of another table. */
  datatype Pos = Root | Child(parent: Pos, index: nat)

  function Level(p: Pos): nat {
    match p
    case Root => 0
    case Child(q, _) => Level(q) + 1
  }

  /** The tables of one pager, by position. */
  type Tables = map<Pos, nat>

  /** A slot above the last level is empty, a 2 MiB page, or leads to the table at its position. */
  ghost predicate SlotOk(tables: Tables, p: Pos, i: Index, e: Entry) {
    if e == ZERO then Child(p, i) !in tables
    else if e.flags.size then Level(p) == 2 && e.frame % 512 == 0 && Child(p, i) !in tables
    else e.flags.stab && Child(p, i) in tables && tables[Child(p, i)] == e.frame
  }

  /** Every table hangs below another one, and the tables are distinct frames. */
  ghost predicate Shape(tables: Tables) {
    && Root in tables
    && (forall p :: p in tables ==> Level(p) <= 3)
    && (forall p, q :: p in tables && q in tables && tables[p] == tables[q] ==> p == q)
    && (forall p, i :: Child(p, i) in tables ==> p in tables && i < 512)
  }

  ghost predicate Stored(mem: Frames, tables: Tables) {
    forall p :: p in tables ==> tables[p] in mem && |mem[tables[p]]| == 512
  }

  ghost predicate SlotsOk(mem: Frames, tables: Tables) {
    forall p, i: Index :: p in tables && Level(p) < 3 ==> SlotOk(tables, p, i, Slot(mem, tables[p], i))
  }

  /** Each table is reached from exactly one slot, and nothing else is. */
  ghost predicate Tree(mem: Frames, tables: Tables) {
    Shape(tables) && Stored(mem, tables) && SlotsOk(mem, tables)
  }

  /** The slot of `a` in a table of the given level. */
  function IndexAt(a: Address, level: nat): Index {
    match level
    case 0 => a.pdp
    case 1 => a.pd
    case 2 => a.pt
    case _ => a.page
  }

  /** The position of the table of the given level on the path of `a`. */
  function TablePos(a: Address, level: nat): (p: Pos)
    ensures Level(p) == level
  {
    if level == 0 then Root else Child(TablePos(a, level - 1), IndexAt(a, level - 1))
  }

  /** The walk, read off the tree, from table `p` down. */
  function WalkFrom(mem: Frames, tables: Tables, p: Pos, a: Address): Option<nat>
    requires p in tables
    decreases 4 - Level(p)
  {
    var i := IndexAt(a, Level(p));
    var e := Slot(mem, tables[p], i);
    if !e.flags.present then None
    else if Level(p) >= 3 then Some(e.frame)
    else if e.flags.size then Some(e.frame + a.page)
    else if Child(p, i) !in tables then None
    else WalkFrom(mem, tables, Child(p, i), a)
  }

  lemma WalkFromLeaf(mem: Frames, tables: Tables, a: Address)
    requires TablePos(a, 3) in tables
    ensures WalkFrom(mem, tables, TablePos(a, 3), a) ==
            var e := Slot(mem, tables[TablePos(a, 3)], a.page);
            if e.flags.present then Some(e.frame) else None
  {
  }

  lemma WalkIsWalkFrom(mem: Frames, tables: Tables, a: Address)
    requires Tree(mem, tables)
    ensures Walk(mem, tables[Root], a) == WalkFrom(mem, tables, Root, a)
  {
    var p1, p2, p3 := Child(Root, a.pdp), Child(Child(Root, a.pdp), a.pd), Child(Child(Child(Root, a.pdp), a.pd), a.pt);
    assert SlotOk(tables, Root, a.pdp, Slot(mem, tables[Root], a.pdp));
    if p1 in tables {
      assert SlotOk(tables, p1, a.pd, Slot(mem, tables[p1], a.pd));
      assert WalkFrom(mem, tables, Root, a) ==
             if Slot(mem, tables[Root], a.pdp).flags.present then WalkFrom(mem, tables, p1, a) else None;
      if p2 in tables {
        assert SlotOk(tables, p2, a.pt, Slot(mem, tables[p2], a.pt));
        if p3 in tables {
          var e := Slot(mem, tables[p3], a.page);
          assert WalkFrom(mem, tables, p3, a) == if e.flags.present then Some(e.frame) else None;
        }
      }
    }
  }
}
