/** Interned ACPI paths with their owners, and the stack of frames around Scope, Device and Processor blocks
    (aml/path_system.rs). */
module Paths {
  import opened Memory
  import opened Texts
  import opened Stacks

  const STORAGE_CAPACITY: nat := 0x4000
  const ROOTS_CAPACITY: nat := 0x1000
  const STACK_CAPACITY: nat := 2048

  /** A path: where its segments are stored, how many they are (a byte), and the path it belongs to. */
  datatype Root = Root(offset: nat, segments: nat, owner: nat)

  datatype Frame = Frame(appended: Option<bool>, extended: bool)

  const NO_FRAME := Frame(None, false)

  function SegmentsOf(n: NameString): (s: Segments)
    ensures n.Dual? ==> |s| == 8 && s[..4] == n.first && s[4..] == n.second
  {
    match n
    case Single(name, _) => name
    case Dual(first, second, _) => first + second
    case Multiple(bytes, _) => bytes
  }

  // ----- the table of paths

  ghost predicate Table(roots: seq<Root>, text: seq<Byte>) {
    && 4 <= |roots| <= ROOTS_CAPACITY && roots[0] == Root(0, 0, 0)
    && (forall id :: 0 <= id < |roots| ==>
      roots[id].offset + 4 * roots[id].segments <= |text| && roots[id].segments < 256)
    && (forall id :: 0 < id < |roots| ==> roots[id].owner < id)
  }

  ghost function Content(roots: seq<Root>, text: seq<Byte>, id: nat): (s: seq<Byte>)
    requires Table(roots, text) && id < |roots|
    ensures |s| == 4 * roots[id].segments
  {
    text[roots[id].offset..roots[id].offset + 4 * roots[id].segments]
  }

  ghost function Contents(roots: seq<Root>, text: seq<Byte>): seq<seq<Byte>>
    requires Table(roots, text)
  {
    seq(|roots|, id requires 0 <= id < |roots| => Content(roots, text, id))
  }

  ghost predicate Distinct(contents: seq<seq<Byte>>) {
    forall i, j :: 0 <= i < j < |contents| ==> contents[i] != contents[j]
  }

  lemma TableMore(roots: seq<Root>, text: seq<Byte>, r: Root, more: seq<Byte>)
    requires Table(roots, text) && |roots| < ROOTS_CAPACITY && r.owner < |roots| && r.segments < 256
    requires r.offset == |text| && |more| == 4 * r.segments
    ensures Table(roots + [r], text + more)
    ensures Contents(roots + [r], text + more) == Contents(roots, text) + [more]
  {
    assert Table(roots + [r], text + more);
    forall id | 0 <= id < |roots| ensures Content(roots + [r], text + more, id) == Content(roots, text, id) {}
    assert Content(roots + [r], text + more, |roots|) == more;
  }

  /** No two ids hold the same content; from the first one that is not built in, every path continues the
      path that owns it; and no path is free of storage. */
  ghost predicate CanonicalTable(roots: seq<Root>, text: seq<Byte>)
    requires Table(roots, text)
  {
    && Distinct(Contents(roots, text)) && 4 * |roots| <= |text|
    && forall id :: 3 <= id < |roots| ==> Contents(roots, text)[roots[id].owner] < Contents(roots, text)[id]
  }

  /** The first path other than `base` that holds the content of `base` followed by `name`. */
  ghost function FirstAt(roots: seq<Root>, text: seq<Byte>, base: nat, name: seq<Byte>): (r: Option<nat>)
    requires Table(roots, text) && base < |roots|
    ensures r.Some? ==>
        r.value < |roots| && r.value != base && Content(roots, text, r.value) == Content(roots, text, base) + name
    ensures r.None? ==>
        forall id :: 0 <= id < |roots| && id != base ==> Content(roots, text, id) != Content(roots, text, base) + name
  {
    FirstFrom(roots, text, base, Content(roots, text, base) + name, 0)
  }

  ghost function FirstFrom(roots: seq<Root>, text: seq<Byte>, base: nat, wanted: seq<Byte>, from: nat): (r: Option<nat>)
    requires Table(roots, text) && from <= |roots|
    ensures r.Some? ==> from <= r.value < |roots| && r.value != base && Content(roots, text, r.value) == wanted
    ensures r.Some? ==> forall id :: from <= id < r.value && id != base ==> Content(roots, text, id) != wanted
    ensures r.None? ==> forall id :: from <= id < |roots| && id != base ==> Content(roots, text, id) != wanted
    decreases |roots| - from
  {
    if from == |roots| then None
    else if from != base && Content(roots, text, from) == wanted then Some(from)
    else FirstFrom(roots, text, base, wanted, from + 1)
  }

  lemma FirstAtIs(roots: seq<Root>, text: seq<Byte>, base: nat, name: seq<Byte>, id: nat)
    requires Table(roots, text) && base < |roots| && id < |roots| && id != base
        && Content(roots, text, id) == Content(roots, text, base) + name
    requires forall i :: 0 <= i < id && i != base ==> Content(roots, text, i) != Content(roots, text, base) + name
    ensures FirstAt(roots, text, base, name) == Some(id)
  {
  }

  /** A stretch of text is `a` followed by `b` when its two parts are. */
  lemma SplitCompare(text: seq<Byte>, o: nat, a: seq<Byte>, b: seq<Byte>)
    requires o + |a| + |b| <= |text|
    ensures text[o..o + |a| + |b|] == a + b <==> text[o..o + |a|] == a && text[o + |a|..o + |a| + |b|] == b
  {
    var whole := text[o..o + |a| + |b|];
    assert whole[..|a|] == text[o..o + |a|] && whole[|a|..] == text[o + |a|..o + |a| + |b|];
    assert whole == whole[..|a|] + whole[|a|..];
    assert (a + b)[..|a|] == a && (a + b)[|a|..] == b;
  }

  // ----- interning

  /** `r` now denotes `base` followed by `name`: the first other path that did so before, or a new one at the end. */
  ghost predicate Interned(roots: seq<Root>, text: seq<Byte>, base: nat, name: seq<Byte>, owner: nat,
                           roots': seq<Root>, text': seq<Byte>, r: nat)
    requires Table(roots, text) && base < |roots|
  {
    var wanted := Content(roots, text, base) + name;
    && Table(roots', text') && r < |roots'| && Content(roots', text', r) == wanted
    && match FirstAt(roots, text, base, name)
       case Some(id) => r == id && roots' == roots && text' == text
       case None => && r == |roots| && |roots'| == r + 1 && roots <= roots' && roots'[r].owner == owner
                    && |text'| == |text| + |wanted|
                    && Contents(roots', text') == Contents(roots, text) + [wanted]
  }

  /** The table of paths is full: the text of the new path is stored, but its id, one past the end, denotes nothing. */
  ghost predicate Unlisted(roots: seq<Root>, text: seq<Byte>, base: nat, name: seq<Byte>,
                           roots': seq<Root>, text': seq<Byte>, r: nat)
    requires Table(roots, text) && base < |roots|
  {
    && |roots| == ROOTS_CAPACITY && FirstAt(roots, text, base, name).None?
    && roots' == roots && r == |roots| && text' == text + Content(roots, text, base) + name
  }

  /** The outcome of looking a path up or adding it. */
  ghost predicate Added(roots: seq<Root>, text: seq<Byte>, base: nat, name: seq<Byte>, owner: nat,
                        roots': seq<Root>, text': seq<Byte>, r: nat)
    requires Table(roots, text) && base < |roots|
  {
    if FirstAt(roots, text, base, name).Some? || |roots| < ROOTS_CAPACITY
    then Interned(roots, text, base, name, owner, roots', text', r)
    else Unlisted(roots, text, base, name, roots', text', r)
  }

  /** In a canonical table the text runs out before the ids do. */
  lemma CanonicalIsListed(roots: seq<Root>, text: seq<Byte>, base: nat, name: seq<Byte>, owner: nat,
                          roots': seq<Root>, text': seq<Byte>, r: nat)
    requires Table(roots, text) && base < |roots| && CanonicalTable(roots, text) && name != [] && |name| % 4 == 0
    requires !NoRoom(roots, text, base, name) && Added(roots, text, base, name, owner, roots', text', r)
    ensures Interned(roots, text, base, name, owner, roots', text', r)
  {
  }

  /** The byte that counts segments overflows, or the path is new and does not fit. */
  ghost predicate NoRoom(roots: seq<Root>, text: seq<Byte>, base: nat, name: seq<Byte>)
    requires Table(roots, text) && base < |roots|
  {
    || roots[base].segments + |name| / 4 > 255
    || (FirstAt(roots, text, base, name).None? && |text| + 4 * roots[base].segments + |name| > STORAGE_CAPACITY)
  }

  /** The path of all segments but the last, if there is one, else none. */
  ghost function OwnerOfInserted(roots: seq<Root>, text: seq<Byte>, name: seq<Byte>): nat
    requires Table(roots, text)
  {
    if |name| <= 4 then 0
    else
      var enclosing := FirstAt(roots, text, 0, name[..|name| - 4]);
      if enclosing.Some? then enclosing.value else 0
  }

  /** `owner` is the path of all segments of `name` but the last: the first id other than 0 that holds it, and 0 when
      no id does, or when there is one segment only. */
  ghost predicate Encloses(contents: seq<seq<Byte>>, owner: nat, name: seq<Byte>) {
    if |contents| > 0 && |name| > 4 && name[..|name| - 4] in contents[1..]
    then && 0 < owner < |contents| && contents[owner] == name[..|name| - 4]
         && forall id :: 0 < id < owner ==> contents[id] != name[..|name| - 4]
    else owner == 0
  }

  lemma OwnerEncloses(roots: seq<Root>, text: seq<Byte>, name: seq<Byte>)
    requires Table(roots, text)
    ensures Encloses(Contents(roots, text), OwnerOfInserted(roots, text, name), name)
  {
    hide FirstFrom;
    var c := Contents(roots, text);
    if |name| > 4 {
      var rest := name[..|name| - 4];
      assert Content(roots, text, 0) + rest == rest;
      assert forall id :: 0 <= id < |c| ==> c[id] == Content(roots, text, id);
    }
  }

  lemma InTable(roots: seq<Root>, text: seq<Byte>, id: nat)
    requires Table(roots, text)
    ensures 4 <= |roots| && roots[0] == Root(0, 0, 0)
    ensures id < |roots| ==> roots[id].offset + 4 * roots[id].segments <= |text| && roots[id].segments < 256
  {
  }

  lemma InternedOld(roots: seq<Root>, text: seq<Byte>, base: nat, name: seq<Byte>, owner: nat)
    requires Table(roots, text) && base < |roots|
    ensures var found := FirstAt(roots, text, base, name);
            found.Some? ==> Interned(roots, text, base, name, owner, roots, text, found.value)
  {
  }

  lemma InternedNew(roots: seq<Root>, text: seq<Byte>, base: nat, name: seq<Byte>, owner: nat)
    requires Table(roots, text) && base < |roots| && owner < |roots| < ROOTS_CAPACITY && |name| % 4 == 0
    requires FirstAt(roots, text, base, name).None? && roots[base].segments + |name| / 4 < 256
    ensures var r := Root(|text|, |name| / 4 + roots[base].segments, owner);
            && Table(roots + [r], text + Content(roots, text, base) + name)
            && Interned(roots, text, base, name, owner, roots + [r], text + Content(roots, text, base) + name, |roots|)
  {
    hide FirstAt;
    var r := Root(|text|, |name| / 4 + roots[base].segments, owner);
    TableMore(roots, text, r, Content(roots, text, base) + name);
    assert text + (Content(roots, text, base) + name) == text + Content(roots, text, base) + name;
    assert Contents(roots + [r], text + Content(roots, text, base) + name)[|roots|]
      == Content(roots, text, base) + name;
  }

  lemma ContentIs(roots: seq<Root>, text: seq<Byte>, id: nat)
    requires Table(roots, text) && id < |roots|
    ensures Content(roots, text, id) == text[roots[id].offset..roots[id].offset + 4 * roots[id].segments]
  {
  }

  lemma MoreText(roots: seq<Root>, text: seq<Byte>, more: seq<Byte>)
    requires Table(roots, text)
    ensures Table(roots, text + more)
  {
  }

  lemma FirstAtSame(roots: seq<Root>, text: seq<Byte>, more: seq<Byte>, base: nat, name: seq<Byte>)
    requires Table(roots, text) && Table(roots, text + more) && base < |roots|
    ensures FirstAt(roots, text + more, base, name) == FirstAt(roots, text, base, name)
  {
    forall id | 0 <= id < |roots| ensures Content(roots, text + more, id) == Content(roots, text, id) {}
  }

  /** Interning keeps all ids apart exactly when the name has a segment: an empty one gets the current path a
      second id. */
  lemma AppendedStaysCanonical(roots: seq<Root>, text: seq<Byte>, base: nat,
                               name: seq<Byte>, roots': seq<Root>, text': seq<Byte>, r: nat)
    requires Table(roots, text) && base < |roots| && CanonicalTable(roots, text) && |name| % 4 == 0
    requires Interned(roots, text, base, name, base, roots', text', r)
    ensures CanonicalTable(roots', text') <==> name != []
  {
    hide FirstAt;
    var c, wanted := Contents(roots, text), Content(roots, text, base) + name;
    assert c[base] == Content(roots, text, base);
    if FirstAt(roots, text, base, name).Some? {
      var id := FirstAt(roots, text, base, name).value;
      FoundElsewhere(roots, text, base, name);
    } else {
      NotFound(roots, text, base, name);
      assert Contents(roots', text')[..|roots|] == c;
      if name == [] {
        assert Contents(roots', text')[base] == Contents(roots', text')[|roots|];
      } else {
        assert wanted !in c;
        assert c[base] < wanted;
        MorePrefixes(roots, text, roots', text', wanted);
      }
    }
  }

  lemma InsertedStaysCanonical(roots: seq<Root>, text: seq<Byte>, name: seq<Byte>,
                               roots': seq<Root>, text': seq<Byte>, r: nat)
    requires Table(roots, text) && CanonicalTable(roots, text) && |name| % 4 == 0 && name != []
    requires Interned(roots, text, 0, name, OwnerOfInserted(roots, text, name), roots', text', r)
    ensures CanonicalTable(roots', text')
  {
    hide FirstAt;
    if FirstAt(roots, text, 0, name).None? {
      var c, owner := Contents(roots, text), OwnerOfInserted(roots, text, name);
      NotFound(roots, text, 0, name);
      assert c[0] == Content(roots, text, 0) == [];
      if |name| > 4 && FirstAt(roots, text, 0, name[..|name| - 4]).Some? {
        FoundElsewhere(roots, text, 0, name[..|name| - 4]);
        assert c[owner] == name[..|name| - 4];
      }
      assert c[owner] < name;
      assert Content(roots, text, 0) + name == name;
      assert name !in c;
      MorePrefixes(roots, text, roots', text', name);
    }
  }

  lemma FoundElsewhere(roots: seq<Root>, text: seq<Byte>, base: nat, name: seq<Byte>)
    requires Table(roots, text) && base < |roots| && FirstAt(roots, text, base, name).Some?
    ensures var id := FirstAt(roots, text, base, name).value;
            && id < |roots| && id != base && Contents(roots, text)[id] == Contents(roots, text)[base] + name
            && (Distinct(Contents(roots, text)) ==> name != [])
  {
    var id := FirstAt(roots, text, base, name).value;
    if name == [] {
      assert Contents(roots, text)[id] == Contents(roots, text)[base];
    }
  }

  lemma NotFound(roots: seq<Root>, text: seq<Byte>, base: nat, name: seq<Byte>)
    requires Table(roots, text) && base < |roots| && FirstAt(roots, text, base, name).None?
    ensures name != [] ==> Content(roots, text, base) + name !in Contents(roots, text)
  {
    if name != [] {
      assert |Content(roots, text, base) + name| > |Content(roots, text, base)|;
    }
  }

  lemma DistinctMore(c: seq<seq<Byte>>, wanted: seq<Byte>)
    requires Distinct(c) && wanted !in c
    ensures Distinct(c + [wanted])
  {
  }

  lemma OwnersMore(c: seq<seq<Byte>>, roots: seq<Root>, wanted: seq<Byte>, roots': seq<Root>)
    requires |roots'| == |roots| + 1 && roots <= roots' && |c| == |roots|
    requires forall id :: 0 <= id < |roots| ==> id == 0 || roots[id].owner < id
    requires forall id :: 3 <= id < |roots| ==> c[roots[id].owner] < c[id]
    requires roots'[|roots|].owner < |roots| && c[roots'[|roots|].owner] < wanted
    ensures forall id :: 3 <= id < |roots'| ==>
              roots'[id].owner < |roots'| && (c + [wanted])[roots'[id].owner] < (c + [wanted])[id]
  {
    forall id | 3 <= id < |roots'|
      ensures roots'[id].owner < |roots'| && (c + [wanted])[roots'[id].owner] < (c + [wanted])[id]
    {
      if id < |roots| { assert roots'[id] == roots[id]; }
    }
  }

  lemma MorePrefixes(roots: seq<Root>, text: seq<Byte>, roots': seq<Root>, text': seq<Byte>, wanted: seq<Byte>)
    requires Table(roots, text) && Table(roots', text') && CanonicalTable(roots, text)
    requires |roots'| == |roots| + 1 && roots <= roots' && Contents(roots', text') == Contents(roots, text) + [wanted]
    requires wanted !in Contents(roots, text) && Contents(roots, text)[roots'[|roots|].owner] < wanted
    requires |text'| == |text| + |wanted| && |wanted| >= 4
    ensures CanonicalTable(roots', text')
  {
    var c, c' := Contents(roots, text), Contents(roots', text');
    DistinctMore(c, wanted);
    assert |c| == |roots|;
    OwnersMore(c, roots, wanted, roots');
    assert forall id :: 3 <= id < |roots'| ==> c'[roots'[id].owner] < c'[id];
  }

  /** The flags of the frame on top. */
  function ExtendTop(frames: seq<Frame>, extended: bool): seq<Frame> {
    if frames == [] then [] else frames[|frames| - 1 := frames[|frames| - 1].(extended := extended)]
  }

  function MarkTop(frames: seq<Frame>, appended: bool): seq<Frame> {
    if frames == [] then [] else frames[|frames| - 1 := frames[|frames| - 1].(appended := Some(appended))]
  }

  const ROOT: Name := [0x5C, 0, 0, 0]
  const SB: Name := [0x5F, 0x53, 0x42, 0x5F]
  const PCI0: Name := [0x50, 0x43, 0x49, 0x30]

  const INITIAL_ROOTS := [Root(0, 0, 0), Root(0, 1, 0), Root(4, 1, 1), Root(8, 2, 2)]

  function BuiltIn(): seq<seq<Byte>> { [[], ROOT, SB, SB + PCI0] }

  lemma BuiltInIs()
    ensures BuiltIn() == [[], [0x5C, 0, 0, 0], [0x5F, 0x53, 0x42, 0x5F],
                          [0x5F, 0x53, 0x42, 0x5F, 0x50, 0x43, 0x49, 0x30]]
  {
    assert SB + PCI0 == [0x5F, 0x53, 0x42, 0x5F, 0x50, 0x43, 0x49, 0x30];
  }

  function InitialText(): seq<Byte> { ROOT + SB + (SB + PCI0) }

  method PushInitialPaths(storage: Text)
    requires storage.Valid() && storage.Bytes() == [] && storage.buffer.Length >= 16
    modifies storage, storage.buffer
    ensures storage.Valid() && storage.Bytes() == InitialText()
  {
    var _ := storage.PushBackRaw(ROOT);
    var _ := storage.PushBackRaw(SB);
    assert storage.Bytes() == ROOT + SB;
    var _ := storage.PushBackRaw(SB + PCI0);
  }

  lemma InitialPaths()
    ensures Table(INITIAL_ROOTS, InitialText()) && CanonicalTable(INITIAL_ROOTS, InitialText())
    ensures Contents(INITIAL_ROOTS, InitialText()) == BuiltIn()
  {
    InitialContents(ROOT, SB, PCI0);
    assert ROOT[0] != SB[0];
    InitialDistinct(ROOT, SB, SB + PCI0);
  }

  lemma InitialContents(a: Name, b: Name, c: Name)
    ensures Table(INITIAL_ROOTS, a + b + (b + c)) && Contents(INITIAL_ROOTS, a + b + (b + c)) == [[], a, b, b + c]
  {
    var text := a + b + (b + c);
    assert text[0..0] == [] && text[0..4] == a && text[4..8] == b && text[8..16] == b + c;
  }

  lemma InitialDistinct(a: Name, b: Name, c: seq<Byte>)
    requires a != b && |c| == 8
    ensures Distinct([[], a, b, c])
  {
  }

  class PathSystem {
    const storage: Text
    const frameStack: Stack<Frame>
    var roots: seq<Root>
    const activePaths: Stack<nat>

    ghost function Repr(): set<object> {
      {this, storage, storage.buffer, frameStack, frameStack.slots, activePaths, activePaths.slots}
    }

    ghost predicate Valid()
      reads Repr()
    {
      && (storage.buffer as object) != activePaths.slots && (storage.buffer as object) != frameStack.slots
      && (frameStack.slots as object) != activePaths.slots && (frameStack as object) != activePaths
      && storage.Valid() && storage.buffer.Length == STORAGE_CAPACITY
      && frameStack.Valid() && activePaths.Valid()
      && Table(roots, storage.Bytes()) && ActiveOk()
    }

    /** Slots of the stack of paths above its top are zero. */
    ghost predicate ActiveOk()
      reads this, activePaths, activePaths.slots
    {
      && (forall i :: 0 <= i < activePaths.slots.Length ==> activePaths.slots[i] < |roots|)
      && (forall i :: activePaths.inserted <= i < activePaths.slots.Length ==> activePaths.slots[i] == 0)
    }

    ghost function Paths(): seq<seq<Byte>>
      requires Valid()
      reads Repr()
    {
      Contents(roots, storage.Bytes())
    }

    ghost predicate Canonical()
      requires Valid()
      reads Repr()
    {
      CanonicalTable(roots, storage.Bytes())
    }

    /** The path that names are appended to. */
    function Base(): nat
      requires activePaths.Valid()
      reads this, activePaths, activePaths.slots
    {
      activePaths.RefTop()
    }

    /** "\\" has id 1, "_SB_" id 2 and "_SB_PCI0" id 3; id 0 stands for none. */
    constructor ()
      ensures fresh(Repr() - {this})
      ensures Valid() && Canonical()
      ensures Paths() == [[], [0x5C, 0, 0, 0], [0x5F, 0x53, 0x42, 0x5F],
                          [0x5F, 0x53, 0x42, 0x5F, 0x50, 0x43, 0x49, 0x30]]
      ensures |roots| == 4 && roots[1].owner == 0 && roots[2].owner == 1 && roots[3].owner == 2
      ensures activePaths.Contents() == [] && frameStack.Contents() == []
    {
      storage := new Text(STORAGE_CAPACITY);
      frameStack := new Stack<Frame>(STACK_CAPACITY, NO_FRAME);
      activePaths := new Stack<nat>(STACK_CAPACITY, 0);
      roots := INITIAL_ROOTS;
      new;
      hide Table, CanonicalTable, Contents, InitialText, BuiltIn;
      PushInitialPaths(storage);
      InitialPaths();
      BuiltInIs();
    }

    /** Whether path `index`, of the right length, is path `base` followed by `name`. */
    method Holds(index: nat, base: nat, name: Segments) returns (same: bool)
      requires Valid() && base < |roots| && index < |roots|
          && roots[index].segments == roots[base].segments + |name| / 4
      ensures same <==> Content(roots, storage.Bytes(), index) == Content(roots, storage.Bytes(), base) + name
    {
      hide Table, Distinct, CanonicalTable, ActiveOk;
      InTable(roots, storage.Bytes(), index);
      InTable(roots, storage.Bytes(), base);
      ghost var from, text := Content(roots, storage.Bytes(), base), storage.Bytes();
      ghost var o := roots[index].offset;
      SplitCompare(text, o, from, name);
      assert Content(roots, text, index) == text[o..o + |from| + |name|];
      same := storage.Compare(roots[index].offset, roots[base].offset, 4 * roots[base].segments);
      if same {
        same := storage.CompareExtern(roots[index].offset + 4 * roots[base].segments, name);
      }
    }

    /** The first id other than `base` that holds the content of `base` followed by `name`. Panics when the
        number of segments overflows. */
    method Find(base: nat, name: Segments) returns (r: Option<nat>, panicked: bool)
      requires Valid() && base < |roots|
      ensures panicked == (roots[base].segments + |name| / 4 > 255)
      ensures !panicked ==> r == FirstAt(roots, storage.Bytes(), base, name)
    {
      panicked := roots[base].segments + |name| / 4 > 255;
      if panicked {
        return None, true;
      }
      for index := 0 to |roots|
        invariant forall id :: 0 <= id < index && id != base ==>
            Content(roots, storage.Bytes(), id) != Content(roots, storage.Bytes(), base) + name
      {
        if index != base && roots[index].segments == roots[base].segments + |name| / 4 {
          var same := Holds(index, base, name);
          if same {
            FirstAtIs(roots, storage.Bytes(), base, name, index);
            return Some(index), false;
          }
        }
      }
      return None, false;
    }

    /** The part of `append` after the path was not found. */
    method AppendNew(base: nat, name: Segments) returns (r: nat, panicked: bool)
      requires Valid() && base < |roots| && FirstAt(roots, storage.Bytes(), base, name).None?
      requires roots[base].segments + |name| / 4 < 256
      modifies this, storage, storage.buffer
      ensures panicked == (old(storage.length) + 4 * old(roots[base]).segments + |name| > STORAGE_CAPACITY)
      ensures !panicked ==>
          Valid() && Added(old(roots), old(storage.Bytes()), base, name, base, roots, storage.Bytes(), r)
    {
      hide Table, FirstAt, Interned, Content;
      ghost var text := storage.Bytes();
      var current, offset := roots[base], storage.length;
      InTable(roots, text, base);
      panicked := storage.Copy(offset, current.offset, 4 * current.segments);
      if panicked {
        return 0, true;
      }
      assert storage.Bytes() == text + Content(roots, text, base) by { ContentIs(roots, text, base); }
      panicked := storage.PushBackRaw(name);
      if panicked {
        return 0, true;
      }
      r := |roots|;
      if |roots| < ROOTS_CAPACITY {
        InternedNew(roots, text, base, name, base);
        roots := roots + [Root(offset, |name| / 4 + current.segments, base)];
      } else {
        MoreText(roots, text, Content(roots, text, base));
        MoreText(roots, text + Content(roots, text, base), name);
      }
    }

    /** The id of the current path followed by the name. */
    method Append(n: NameString) returns (r: nat, panicked: bool)
      requires Valid()
      modifies this, storage, storage.buffer
      ensures panicked == old(NoRoom(roots, storage.Bytes(), Base(), SegmentsOf(n)))
      ensures old(Base()) < |old(roots)|
      ensures var segments := old(roots[Base()].segments) + |SegmentsOf(n)| / 4;
              && (segments > 255 ==> panicked)
              && (segments <= 255 && old(storage.length) + 4 * segments <= 0x4000 ==> !panicked)
      ensures !panicked ==>
          && Valid()
          && Added(old(roots), old(storage.Bytes()), old(Base()), SegmentsOf(n), old(Base()), roots, storage.Bytes(), r)
    {
      hide Table, FirstAt, Interned, SegmentsOf, Distinct;
      var base := activePaths.RefTop();
      var found;
      found, panicked := Find(base, SegmentsOf(n));
      if panicked {
        return 0, true;
      }
      InternedOld(roots, storage.Bytes(), base, SegmentsOf(n), base);
      if found.Some? {
        return found.value, false;
      }
      r, panicked := AppendNew(base, SegmentsOf(n));
    }

    /** The part of `insert` after the path was not found. */
    method InsertNew(name: Segments) returns (r: nat, panicked: bool)
      requires Valid() && FirstAt(roots, storage.Bytes(), 0, name).None?
      modifies this, storage, storage.buffer
      ensures panicked == (old(storage.length) + |name| > STORAGE_CAPACITY || name == [])
      ensures !panicked ==> Valid() && Added(old(roots), old(storage.Bytes()), 0, name,
                                             OwnerOfInserted(old(roots), old(storage.Bytes()), name),
                                             roots, storage.Bytes(), r)
    {
      hide Table, FirstAt, Interned;
      ghost var text := storage.Bytes();
      InTable(roots, text, 0);
      var offset := storage.length;
      panicked := storage.PushBackRaw(name);
      if panicked {
        return 0, true;
      }
      MoreText(roots, text, name);
      var owner := 0;
      if |name| / 4 != 1 {
        if |name| / 4 == 0 {
          // the number of segments less one
          return 0, true;
        }
        var enclosing, _ := Find(0, name[..|name| - 4]);
        FirstAtSame(roots, text, name, 0, name[..|name| - 4]);
        owner := if enclosing.Some? then enclosing.value else 0;
      }
      assert text + Content(roots, text, 0) + name == storage.Bytes();
      r := |roots|;
      if |roots| < ROOTS_CAPACITY {
        InternedNew(roots, text, 0, name, owner);
        roots := roots + [Root(offset, |name| / 4, owner)];
      }
    }

    /** The id of the name on its own. Panics also for a name of no segments that no path has: the number of segments
        less one is below zero. */
    method Insert(n: NameString) returns (r: nat, panicked: bool)
      requires Valid()
      modifies this, storage, storage.buffer
      ensures 0 < |old(roots)|
      ensures panicked == old(NoRoom(roots, storage.Bytes(), 0, SegmentsOf(n))
                              || (SegmentsOf(n) == [] && FirstAt(roots, storage.Bytes(), 0, []).None?))
      ensures SegmentsOf(n) != [] && old(storage.length) + |SegmentsOf(n)| <= 0x4000 ==> !panicked
      ensures !panicked ==> Valid() && Added(old(roots), old(storage.Bytes()), 0, SegmentsOf(n),
                                             old(OwnerOfInserted(roots, storage.Bytes(), SegmentsOf(n))),
                                             roots, storage.Bytes(), r)
      ensures !panicked && r == |old(roots)| < |roots| ==> Encloses(old(Paths()), roots[r].owner, SegmentsOf(n))
    {
      hide Table, FirstAt, SegmentsOf, Distinct, Encloses, OwnerOfInserted;
      OwnerEncloses(roots, storage.Bytes(), SegmentsOf(n));
      InTable(roots, storage.Bytes(), 0);
      var found, _ := Find(0, SegmentsOf(n));
      InternedOld(roots, storage.Bytes(), 0, SegmentsOf(n), OwnerOfInserted(roots, storage.Bytes(), SegmentsOf(n)));
      if found.Some? {
        return found.value, false;
      }
      r, panicked := InsertNew(SegmentsOf(n));
    }

    // ----- frames

    function CurrentPath(): nat
      requires activePaths.Valid()
      reads this, activePaths, activePaths.slots
    {
      if activePaths.inserted != 0 then activePaths.RefTop() else 1
    }

    method PushFrame() returns (panicked: bool)
      requires Valid()
      modifies frameStack, frameStack.slots
      ensures Valid() && panicked == (old(frameStack.inserted) == frameStack.slots.Length)
      ensures !panicked ==> frameStack.Contents() == ExtendTop(old(frameStack.Contents()), true) + [NO_FRAME]
      ensures !panicked ==>
          var was, now := old(frameStack.Contents()), frameStack.Contents();
          && |now| == |was| + 1 && now[|was|] == Frame(None, false)
          && (was != [] ==> now[|was| - 1] == Frame(was[|was| - 1].appended, true))
    {
      if frameStack.inserted != 0 {
        frameStack.SetTop(frameStack.RefTop().(extended := true));
        assert frameStack.Contents() == ExtendTop(old(frameStack.Contents()), true);
      }
      panicked := frameStack.Push(NO_FRAME);
    }

    /** `push_as_appended` and `push_as_inserted`. */
    method PushAs(path: nat, appended: bool) returns (panicked: bool)
      requires Valid() && path < |roots|
      modifies frameStack, frameStack.slots, activePaths, activePaths.slots
      ensures panicked == (old(activePaths.inserted) == activePaths.slots.Length)
      ensures !panicked ==> Valid() && activePaths.Contents() == old(activePaths.Contents()) + [path]
      ensures !panicked ==> frameStack.Contents() == MarkTop(old(frameStack.Contents()), appended)
      ensures !panicked ==>
          var was, now := old(frameStack.Contents()), frameStack.Contents();
          |now| == |was| && (was != [] ==> now[|was| - 1] == Frame(Some(appended), was[|was| - 1].extended))
    {
      panicked := activePaths.Push(path);
      if panicked {
        return;
      }
      frameStack.SetTop(frameStack.RefTop().(appended := Some(appended)));
    }

    /** Leaves the current path; its slot is cleared. */
    method PopPath() returns (panicked: bool)
      requires Valid()
      modifies activePaths, activePaths.slots
      ensures panicked == (old(activePaths.inserted) == 0)
      ensures !panicked ==> Valid() && activePaths.Contents() == old(activePaths.Contents()[..activePaths.inserted - 1])
    {
      hide Table;
      activePaths.SetTop(0);
      var path;
      path, panicked := activePaths.Pop();
    }

    /** Leaves the frame, and the path it made current. */
    method PopFrame() returns (panicked: bool)
      requires Valid()
      modifies frameStack, frameStack.slots, activePaths, activePaths.slots
      ensures panicked
          == old(frameStack.inserted == 0 || (frameStack.RefTop().appended.Some? && activePaths.inserted == 0))
      ensures !panicked ==> Valid() && |old(frameStack.Contents())| > 0
      ensures !panicked ==>
          frameStack.Contents() == ExtendTop(old(frameStack.Contents()[..frameStack.inserted - 1]), false)
      ensures !panicked ==>
          var was, now := old(frameStack.Contents()), frameStack.Contents();
          |now| == |was| - 1 && (now != [] ==> now[|now| - 1] == Frame(was[|now| - 1].appended, false))
      ensures !panicked && old(frameStack.RefTop().appended.None?) ==>
          activePaths.Contents() == old(activePaths.Contents())
      ensures !panicked && old(frameStack.RefTop().appended.Some?) ==>
                old(activePaths.inserted) > 0
                  && activePaths.Contents() == old(activePaths.Contents())[..|old(activePaths.Contents())| - 1]
    {
      hide Table, Contents, ActiveOk;
      var frame;
      frame, panicked := frameStack.Pop();
      if panicked {
        return;
      }
      if frame.appended.Some? {
        panicked := PopPath();
        if panicked {
          return;
        }
      }
      frameStack.SetTop(frameStack.RefTop().(extended := false));
    }
  }

  /** When no path is active the top slot reads zero, so a name is appended to nothing. */
  lemma EmptyReadsZero(p: PathSystem)
    requires p.Valid() && p.activePaths.Contents() == []
    ensures p.Base() == 0 && p.CurrentPath() == 1
  {
    assert |p.activePaths.Contents()| == 0;
  }
}
