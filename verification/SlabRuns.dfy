/** Whole runs of the name store: what is read back after any sequence of stores, replacements and removals, and
    how far the run gets. */
module SlabRuns {
  import opened Memory
  import opened Slabs
  import opened Texts

  /** A name to store, or a text to put in the place of the name stored as number `which`; an empty one removes it. */
  datatype Change = Store(text: seq<Byte>) | Replacement(which: nat, text: seq<Byte>)

  predicate SameSize(was: seq<Byte>, text: seq<Byte>) { 0 < |text| && TypeFor(|text|) == TypeFor(|was|) }

  /** The names after a run. A replacement that would free a name of more than 8 bytes is skipped. */
  function Current(changes: seq<Change>): seq<Option<seq<Byte>>> {
    if changes == [] then []
    else
      var n := |changes| - 1;
      After(Current(changes[..n]), changes[n])
  }

  predicate Applies(current: seq<Option<seq<Byte>>>, i: nat, text: seq<Byte>) {
    i < |current| && current[i].Some? && (SameSize(current[i].value, text) || |current[i].value| <= 8)
  }

  function After(current: seq<Option<seq<Byte>>>, change: Change): seq<Option<seq<Byte>>> {
    match change
    case Store(text) => current + [Some(text)]
    case Replacement(i, text) =>
      if Applies(current, i, text) then current[i := if text == [] then None else Some(text)] else current
  }

  /** When there is no room for a new text, the name it was to replace is gone. */
  function Refused(current: seq<Option<seq<Byte>>>, change: Change): seq<Option<seq<Byte>>> {
    if change.Replacement? && change.which < |current| then current[change.which := None] else current
  }

  /** The names of one size class, by number. */
  function OfClass(current: seq<Option<seq<Byte>>>, t: StringType): set<nat> {
    set i | 0 <= i < |current| && current[i].Some? && TypeFor(|current[i].value|) == t
  }

  /** Names of this length do not fit: they are too long, or as many as their table has slots are stored. */
  predicate NoRoom(current: seq<Option<seq<Byte>>>, length: nat) {
    length > 32 || |OfClass(current, TypeFor(length))| == SlotsFor(length)
  }

  /** The change needs a slot in a table that has none left. */
  predicate Refuses(current: seq<Option<seq<Byte>>>, change: Change) {
    match change
    case Store(text) => NoRoom(current, |text|)
    case Replacement(i, text) =>
      && Applies(current, i, text) && text != [] && !SameSize(current[i].value, text)
      && NoRoom(current[i := None], |text|)
  }

  /** Each name has an offset of its own, in the table of its size, and nothing else is stored. */
  ghost predicate Holds(names: map<nat, seq<Byte>>, offsets: seq<Option<nat>>, current: seq<Option<seq<Byte>>>) {
    && |offsets| == |current|
    && (forall i :: 0 <= i < |offsets| ==> Held(names, offsets[i], current[i]))
    && (forall i, j :: 0 <= i < j < |offsets| && offsets[i].Some? ==> offsets[i] != offsets[j])
    && (forall o :: o in names ==> Some(o) in offsets)
  }

  ghost predicate Held(names: map<nat, seq<Byte>>, offset: Option<nat>, text: Option<seq<Byte>>) {
    match offset
    case None => text.None?
    case Some(o) => o in names && text == Some(names[o]) && Aligned(o) && TypeOf(o) == TypeFor(|names[o]|)
  }

  lemma RoomExactly(names: map<nat, seq<Byte>>, offsets: seq<Option<nat>>, current: seq<Option<seq<Byte>>>, length: nat)
    requires Holds(names, offsets, current)
    ensures NoRoom(current, length) <==> length > 32 || NoSlotFor(names, length)
  {
    hide TypeOf, TypeFor, Aligned, Holds, SlotsFor;
    OffsetsFor(length);
    if length <= 32 {
      forall o | o in names ensures Aligned(o) && TypeOf(o) == TypeFor(|names[o]|) {
        var _ := NumberOf(names, offsets, current, o);
      }
      FullExactly(names, length);
      ClassCount(names, offsets, current, TypeFor(length));
    }
  }

  lemma ClassCount(names: map<nat, seq<Byte>>, offsets: seq<Option<nat>>, current: seq<Option<seq<Byte>>>,
                   t: StringType)
    requires Holds(names, offsets, current)
    ensures |OfClass(current, t)| == |InTable(names, t)|
  {
    hide TypeOf, TypeFor, Aligned, Holds;
    SameLength(names, offsets, current);
    forall i | i in OfClass(current, t) ensures offsets[i].Some? && offsets[i].value in InTable(names, t) {
      HeldAt(names, offsets, current, i);
    }
    var m := map i | i in OfClass(current, t) :: offsets[i].value;
    forall i, j | i in m && j in m && m[i] == m[j] ensures i == j { OffsetsDiffer(names, offsets, current, i, j); }
    SameCount(m);
    assert m.Keys == OfClass(current, t);
    forall o | o in InTable(names, t) ensures o in m.Values {
      var i := NumberOf(names, offsets, current, o);
      assert i in m && m[i] == o;
    }
    assert m.Values == InTable(names, t);
  }

  lemma OffsetsDiffer(names: map<nat, seq<Byte>>, offsets: seq<Option<nat>>, current: seq<Option<seq<Byte>>>, i: nat,
                      j: nat)
    requires Holds(names, offsets, current) && i < |offsets| && j < |offsets|
    ensures offsets[i].Some? && i != j ==> offsets[i] != offsets[j]
  {
  }

  lemma NumberOf(names: map<nat, seq<Byte>>, offsets: seq<Option<nat>>, current: seq<Option<seq<Byte>>>, o: nat)
    returns (i: nat)
    requires Holds(names, offsets, current) && o in names
    ensures i < |offsets| == |current| && offsets[i] == Some(o) && Held(names, offsets[i], current[i])
  {
    i :| 0 <= i < |offsets| && offsets[i] == Some(o);
  }

  lemma HoldsStored(names: map<nat, seq<Byte>>, offsets: seq<Option<nat>>, current: seq<Option<seq<Byte>>>, o: nat,
                    text: seq<Byte>)
    requires Holds(names, offsets, current) && LowestFree(names, |text|, o)
    ensures Holds(names[o := text], offsets + [Some(o)], current + [Some(text)])
  {
    hide TypeOf, TypeFor, Aligned;
    var os := offsets + [Some(o)];
    assert os[|offsets|] == Some(o);
    forall x | x in names[o := text] && x != o ensures Some(x) in os { assert Some(x) in offsets; }
  }

  lemma HoldsChanged(names: map<nat, seq<Byte>>, offsets: seq<Option<nat>>, current: seq<Option<seq<Byte>>>, i: nat,
                     text: seq<Byte>)
    requires Holds(names, offsets, current) && i < |current| && offsets[i].Some?
    requires TypeFor(|text|) == TypeOf(offsets[i].value)
    ensures Holds(names[offsets[i].value := text], offsets, current[i := Some(text)])
  {
    hide TypeOf, TypeFor, Aligned;
  }

  lemma HoldsRemoved(names: map<nat, seq<Byte>>, offsets: seq<Option<nat>>, current: seq<Option<seq<Byte>>>, i: nat)
    requires Holds(names, offsets, current) && i < |current| && offsets[i].Some?
    ensures Holds(names - {offsets[i].value}, offsets[i := None], current[i := None])
  {
    hide TypeOf, TypeFor, Aligned;
    var os := offsets[i := None];
    forall x | x in names - {offsets[i].value} ensures Some(x) in os {
      var j :| 0 <= j < |offsets| && offsets[j] == Some(x);
      assert os[j] == Some(x);
    }
  }

  lemma HoldsMoved(names: map<nat, seq<Byte>>, offsets: seq<Option<nat>>, current: seq<Option<seq<Byte>>>, i: nat,
                   o: nat, text: seq<Byte>)
    requires Holds(names, offsets, current) && i < |current| && offsets[i].None? && LowestFree(names, |text|, o)
    ensures Holds(names[o := text], offsets[i := Some(o)], current[i := Some(text)])
  {
    hide TypeOf, TypeFor, Aligned;
    var os := offsets[i := Some(o)];
    assert os[i] == Some(o);
    forall x | x in names[o := text] && x != o ensures Some(x) in os {
      var j :| 0 <= j < |offsets| && offsets[j] == Some(x);
      assert os[j] == Some(x);
    }
  }

  /** Puts another text in the place of a name; refused when there is no room for it, or when storing it panics. */
  method Exchange(strings: StringAllocator, offsets: seq<Option<nat>>, ghost current: seq<Option<seq<Byte>>>, i: nat,
                  text: seq<Byte>, above: Option<nat>)
    returns (r: seq<Option<nat>>, refused: bool)
    requires strings.Valid() && Holds(strings.names, offsets, current) && NulFree(text) && i < |offsets|
    modifies strings`names, strings.Repr()
    ensures strings.Valid() && refused == Refuses(current, Replacement(i, text))
    ensures var change := Replacement(i, text);
            Holds(strings.names, r, if refused then Refused(current, change) else After(current, change))
  {
    hide NulFree, strings.Valid, TypeFor, Aligned, LowestFree, Holds, Flipped, NoRoom, NoSlotFor;
    r, refused := offsets, false;
    HeldAt(strings.names, offsets, current, i);
    if offsets[i].None? { return; }
    ghost var names := strings.names;
    var offset := offsets[i].value;
    var was := strings.AsString(offset);
    if !SameSize(was, text) && |was| > 8 { return; }
    ghost var stale := strings.ReadsAt(Toggled(offset));
    var moved, panicked := strings.Rename(offset, |was|, text, above);
    if SameSize(was, text) {
      HoldsChanged(names, offsets, current, i, text);
      return;
    }
    ShortIsFreed(names, offset, stale);
    HoldsRemoved(names, offsets, current, i);
    r := offsets[i := None];
    RoomExactly(names - {offset}, r, current[i := None], |text|);
    refused := text != [] && moved.None?;
    if text != [] && moved.Some? {
      HoldsMoved(names - {offset}, r, current[i := None], i, moved.value, text);
      r := offsets[i := moved];
      assert r == offsets[i := None][i := moved] && current[i := Some(text)] == current[i := None][i := Some(text)];
    }
  }

  lemma HeldAt(names: map<nat, seq<Byte>>, offsets: seq<Option<nat>>, current: seq<Option<seq<Byte>>>, i: nat)
    requires Holds(names, offsets, current) && i < |offsets|
    ensures |offsets| == |current| && Held(names, offsets[i], current[i])
  {
  }

  lemma ShortIsFreed(names: map<nat, seq<Byte>>, offset: nat, stale: seq<Byte>)
    requires Aligned(offset) && offset in names && |names[offset]| <= 8 && TypeOf(offset) == TypeFor(|names[offset]|)
    ensures Flipped(names, offset, stale) == names - {offset} && FlippedSlot(offset) < Slots(TypeOf(offset))
  {
    FreedExactly(names, offset, stale);
  }

  method Play(strings: StringAllocator, offsets: seq<Option<nat>>, ghost current: seq<Option<seq<Byte>>>,
              change: Change, above: Option<nat>)
    returns (r: seq<Option<nat>>, refused: bool)
    requires strings.Valid() && Holds(strings.names, offsets, current) && NulFree(change.text)
    modifies strings`names, strings.Repr()
    ensures strings.Valid() && refused == Refuses(current, change)
    ensures Holds(strings.names, r, if refused then Refused(current, change) else After(current, change))
  {
    hide NulFree, strings.Valid, TypeOf, TypeFor, Aligned, LowestFree, Holds, NoRoom, NoSlotFor;
    r, refused := offsets, false;
    match change {
      case Store(name) =>
        ghost var names := strings.names;
        RoomExactly(names, offsets, current, |name|);
        var offset, panicked := strings.Allocate(name, above);
        if offset.None? {
          return offsets, true;
        }
        HoldsStored(names, offsets, current, offset.value, name);
        r := offsets + [offset];
      case Replacement(i, name) =>
        SameLength(strings.names, offsets, current);
        if i < |offsets| {
          r, refused := Exchange(strings, offsets, current, i, name, above);
        }
    }
  }

  lemma SameLength(names: map<nat, seq<Byte>>, offsets: seq<Option<nat>>, current: seq<Option<seq<Byte>>>)
    requires Holds(names, offsets, current)
    ensures |offsets| == |current|
  {
  }

  /** Plays a run on a new store up to the first text there is no room for, and reads name `which` back. The run
      goes through exactly when no change needs a slot that is not there. */
  method PlayThenRead(changes: seq<Change>, which: nat, above: Option<nat>)
    returns (text: Option<seq<Byte>>, done: nat)
    requires forall k :: 0 <= k < |changes| ==> NulFree(changes[k].text)
    ensures done <= |changes| && forall k :: 0 <= k < done ==> !Refuses(Current(changes[..k]), changes[k])
    ensures done < |changes| ==> Refuses(Current(changes[..done]), changes[done])
    ensures var current := if done < |changes| then Refused(Current(changes[..done]), changes[done])
                           else Current(changes);
            text == if which < |current| then current[which] else None
  {
    hide NulFree, Refuses, Applies, After, Refused, Holds, Current, StringAllocator.Valid;
    var strings := new StringAllocator();
    var offsets, refused := [], false;
    ghost var current: seq<Option<seq<Byte>>> := [];
    done := 0;
    NothingHeld(strings.names);
    while done < |changes|
      invariant done <= |changes| && fresh(strings) && fresh(strings.Repr()) && strings.Valid()
      invariant Holds(strings.names, offsets, current) && current == Current(changes[..done])
      invariant forall k :: 0 <= k < done ==> !Refuses(Current(changes[..k]), changes[k])
    {
      CurrentStep(changes, done);
      offsets, refused := Play(strings, offsets, current, changes[done], above);
      if refused {
        current := Refused(current, changes[done]);
        break;
      }
      current := After(current, changes[done]);
      done := done + 1;
    }
    assert done == |changes| ==> changes[..done] == changes;
    SameLength(strings.names, offsets, current);
    if which < |offsets| {
      HeldAt(strings.names, offsets, current, which);
      if offsets[which].Some? {
        var name := strings.AsString(offsets[which].value);
        return Some(name), done;
      }
    }
    return None, done;
  }

  lemma NothingHeld(names: map<nat, seq<Byte>>)
    requires names == map[]
    ensures Holds(names, [], []) && Current([]) == []
  {
  }

  lemma CurrentStep(changes: seq<Change>, n: nat)
    requires n < |changes|
    ensures Current(changes[..n + 1]) == After(Current(changes[..n]), changes[n])
  {
    assert changes[..n + 1][..n] == changes[..n];
  }

  /** The first `n` slots for names of 9 to 16 bytes are in use, and nothing else. */
  ghost predicate FirstSlots(names: map<nat, seq<Byte>>, n: nat) {
    forall o :: o in names <==> Aligned(o) && TypeOf(o) == Length16 && SlotOf(o) < n
  }

  lemma NextSlot(names: map<nat, seq<Byte>>, n: nat, text: seq<Byte>)
    requires n < Slots(Length16) && 8 < |text| <= 16 && FirstSlots(names, n)
    ensures !NoSlotFor(names, |text|)
    ensures forall o :: LowestFree(names, |text|, o) ==> o == OffsetOf(Length16, n)
    ensures FirstSlots(names[OffsetOf(Length16, n) := text], n + 1)
  {
    hide Aligned, TypeOf, SlotOf;
    var next := OffsetOf(Length16, n);
    SlotBack(Length16, n);
    forall o | Aligned(o) && TypeOf(o) == Length16 ensures o == OffsetOf(Length16, SlotOf(o)) { SlotForth(o); }
    forall o | LowestFree(names, |text|, o) ensures o == next {}
  }

  lemma SecondToggles(o: nat)
    requires o == OffsetOf(Length16, 1)
    ensures Aligned(o) && FlippedSlot(o) < Slots(TypeOf(o)) && Toggled(o) == OffsetOf(Length16, 2)
  {
  }

  lemma ThirdIsFlipped(names: map<nat, seq<Byte>>, o: nat, stale: seq<Byte>)
    requires FirstSlots(names, 3) && o == OffsetOf(Length16, 1)
    ensures Aligned(o) && FlippedSlot(o) < Slots(TypeOf(o)) && FirstSlots(Flipped(names, o, stale), 2)
  {
    hide Aligned, TypeOf, SlotOf, Toggled, FlippedSlot;
    SecondToggles(o);
    SlotBack(Length16, 2);
    forall x | Aligned(x) && TypeOf(x) == Length16 ensures x == OffsetOf(Length16, SlotOf(x)) { SlotForth(x); }
  }

  lemma NoSlots(names: map<nat, seq<Byte>>)
    requires names == map[]
    ensures FirstSlots(names, 0)
  {
  }

  method StoreNext(strings: StringAllocator, ghost n: nat, text: seq<Byte>) returns (o: nat)
    requires strings.Valid() && NulFree(text) && 8 < |text| <= 16 && n < Slots(Length16)
    requires FirstSlots(strings.names, n)
    modifies strings`names, strings.Repr()
    ensures strings.Valid() && o == OffsetOf(Length16, n)
    ensures strings.names == old(strings.names)[o := text] && FirstSlots(strings.names, n + 1)
  {
    hide NulFree, LowestFree, NoSlotFor, FirstSlots, StringAllocator.Valid;
    NextSlot(strings.names, n, text);
    var r, _ := strings.Allocate(text, None);
    return r.value;
  }

  method RemoveSecond(strings: StringAllocator, o: nat, length: nat)
    requires strings.Valid() && FirstSlots(strings.names, 3)
    requires o == OffsetOf(Length16, 1) && o in strings.names && |strings.names[o]| == length
    modifies strings`names, strings.Repr()
    ensures strings.Valid() && FirstSlots(strings.names, 2)
  {
    hide LowestFree, NoSlotFor, FirstSlots, Flipped, Aligned, TypeOf, FlippedSlot, StringAllocator.Valid;
    SecondToggles(o);
    ThirdIsFlipped(strings.names, o, strings.ReadsAt(Toggled(o)));
    assert NulFree([]);
    var _, _ := strings.Rename(o, length, [], None);
  }

  /** Beyond 8 bytes freeing goes wrong: the second of three names is freed, a fourth is stored, and the offset of the
      third reads as the fourth. */
  method FreeSpoilsAnother(a: seq<Byte>, b: seq<Byte>, c: seq<Byte>, d: seq<Byte>) returns (text: seq<Byte>)
    requires forall s :: s in [a, b, c, d] ==> 8 < |s| <= 16 && NulFree(s)
    ensures text == d
  {
    hide FirstSlots, StringAllocator.Valid;
    assert a in [a, b, c, d] && b in [a, b, c, d] && c in [a, b, c, d] && d in [a, b, c, d];
    var strings := new StringAllocator();
    NoSlots(strings.names);
    var first := StoreNext(strings, 0, a);
    var second := StoreNext(strings, 1, b);
    var third := StoreNext(strings, 2, c);
    RemoveSecond(strings, second, |b|);
    var fourth := StoreNext(strings, 2, d);
    text := strings.AsString(third);
  }
}
