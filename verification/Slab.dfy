/** The store of directory names (vfs/gfs/string_allocator.rs): three tables of slots of 8, 16 and 32 bytes,
    each with a bitmap of the slots in use. */
module Slabs {
  import opened Memory
  import opened Multiples
  import opened Texts

  // ----- bits of a byte

  function OneBit8(b: nat): bv8
    requires b < 8
  {
    if b == 0 then 1 else if b == 1 then 2 else if b == 2 then 4 else if b == 3 then 8
    else if b == 4 then 16 else if b == 5 then 32 else if b == 6 then 64 else 128
  }

  predicate Bit8(w: bv8, b: nat)
    requires b < 8
  {
    w & OneBit8(b) != 0
  }

  lemma SetSame8(w: bv8, b: nat)
    requires b < 8
    ensures Bit8(w | OneBit8(b), b)
  {
  }

  lemma SetOther8(w: bv8, b: nat, j: nat)
    requires b < 8 && j < 8 && j != b
    ensures Bit8(w | OneBit8(b), j) == Bit8(w, j)
  {
  }

  lemma SetBits(w: bv8, b: nat)
    requires b < 8
    ensures forall j :: 0 <= j < 8 ==> Bit8(w | OneBit8(b), j) == (j == b || Bit8(w, j))
  {
    hide Bit8;
    SetSame8(w, b);
    forall j | 0 <= j < 8 && j != b ensures Bit8(w | OneBit8(b), j) == Bit8(w, j) { SetOther8(w, b, j); }
  }

  lemma FlipSame8(w: bv8, b: nat)
    requires b < 8
    ensures Bit8(w ^ OneBit8(b), b) != Bit8(w, b)
  {
  }

  lemma FlipOther8(w: bv8, b: nat, j: nat)
    requires b < 8 && j < 8 && j != b
    ensures Bit8(w ^ OneBit8(b), j) == Bit8(w, j)
  {
  }

  lemma FlipBits(w: bv8, b: nat)
    requires b < 8
    ensures forall j :: 0 <= j < 8 ==> Bit8(w ^ OneBit8(b), j) == ((j == b) != Bit8(w, j))
  {
    hide Bit8;
    FlipSame8(w, b);
    forall j | 0 <= j < 8 && j != b ensures Bit8(w ^ OneBit8(b), j) == Bit8(w, j) { FlipOther8(w, b, j); }
  }

  lemma AllSet8(w: bv8)
    requires forall b :: 0 <= b < 8 ==> Bit8(w, b)
    ensures w == 0xFF
  {
    assert Bit8(w, 0) && Bit8(w, 1) && Bit8(w, 2) && Bit8(w, 3) && Bit8(w, 4) && Bit8(w, 5) && Bit8(w, 6) && Bit8(w, 7);
  }

  lemma NoBits(b: nat)
    requires b < 8
    ensures !Bit8(0, b)
  {
  }

  lemma FullByte(b: nat)
    requires b < 8
    ensures Bit8(0xFF, b)
  {
  }

  // ----- strings in slots

  ghost predicate NulFree(s: seq<Byte>) { forall i :: 0 <= i < |s| ==> s[i] != 0 }

  function UpToNul(s: seq<Byte>): seq<Byte> {
    if s == [] || s[0] == 0 then [] else [s[0]] + UpToNul(s[1..])
  }

  /** Only zeros follow the string. */
  ghost predicate Clean(s: seq<Byte>) { forall i :: |UpToNul(s)| <= i < |s| ==> s[i] == 0 }

  lemma {:induction false} UpToNulFits(s: seq<Byte>)
    ensures |UpToNul(s)| <= |s|
  {
    if s != [] { UpToNulFits(s[1..]); }
  }

  lemma {:induction false} Padded(s: seq<Byte>, name: seq<Byte>)
    requires |name| <= |s| && s[..|name|] == name && NulFree(name)
    requires forall i :: |name| <= i < |s| ==> s[i] == 0
    ensures UpToNul(s) == name && Clean(s)
  {
    if name != [] {
      assert s[0] == name[0] && s[1..][..|name| - 1] == s[..|name|][1..];
      Padded(s[1..], name[1..]);
    }
  }

  lemma ZerosAreClean(s: seq<Byte>)
    requires forall i :: 0 <= i < |s| ==> s[i] == 0
    ensures Clean(s)
  {
  }

  /** Copies a string to the front of a range and fills the rest with zeros. */
  method CopyAndFill(data: array<Byte>, at: nat, length: nat, text: seq<Byte>)
    requires at + length <= data.Length && |text| <= length
    modifies data
    ensures data[at..at + length][..|text|] == text && forall i :: at + |text| <= i < at + length ==> data[i] == 0
    ensures forall i :: 0 <= i < data.Length && !(at <= i < at + length) ==> data[i] == old(data[i])
  {
    forall i | at <= i < at + length {
      data[i] := if i - at < |text| then text[i - at] else 0;
    }
  }

  method Overwrite(data: array<Byte>, at: nat, text: seq<Byte>)
    requires at + |text| <= data.Length
    modifies data
    ensures forall i :: 0 <= i < data.Length ==> data[i] == if at <= i < at + |text| then text[i - at] else old(data[i])
  {
    forall i | 0 <= i < |text| {
      data[at + i] := text[i];
    }
  }

  /** A string replaces another in place; the part of a longer one that would stick out is cleared first. */
  method Replace(data: array<Byte>, at: nat, maxLength: nat, oldLength: nat, text: seq<Byte>)
    requires at + maxLength <= data.Length && |text| <= maxLength && NulFree(text)
    requires Clean(data[at..at + maxLength]) && oldLength == |UpToNul(data[at..at + maxLength])|
    modifies data
    ensures Clean(data[at..at + maxLength]) && UpToNul(data[at..at + maxLength]) == text
    ensures forall i :: 0 <= i < data.Length && !(at <= i < at + maxLength) ==> data[i] == old(data[i])
  {
    hide UpToNul;
    ghost var before := data[at..at + maxLength];
    UpToNulFits(before);
    assert forall i :: at + oldLength <= i < at + maxLength ==> data[i] == before[i - at];
    if oldLength > |text| {
      Overwrite(data, at + |text|, seq(oldLength - |text|, _ => 0));
    }
    Overwrite(data, at, text);
    Padded(data[at..at + maxLength], text);
  }

  lemma {:induction false} UpToNulAt(s: seq<Byte>, i: nat)
    requires i <= |s| && NulFree(s[..i]) && (i < |s| ==> s[i] == 0)
    ensures UpToNul(s) == s[..i]
  {
    if i > 0 {
      assert s[..i][0] == s[0] && s[1..][..i - 1] == s[..i][1..];
      UpToNulAt(s[1..], i - 1);
    }
  }

  /** The slots of one size. */
  class SizeClass {
    const maxLength: nat
    const data: array<Byte>
    const bitmap: array<bv8>

    ghost function Repr(): set<object> { {data, bitmap} }

    ghost predicate Valid() {
      maxLength > 0 && data.Length == 8 * bitmap.Length * maxLength && (data as object) != bitmap
    }

    constructor (maxLength: nat, bitmapBytes: nat)
      requires maxLength > 0
      ensures Valid() && AllClean() && this.maxLength == maxLength && bitmap.Length == bitmapBytes && fresh(data)
          && fresh(bitmap)
      ensures forall slot :: 0 <= slot < 8 * bitmapBytes ==> !Taken(slot)
    {
      this.maxLength := maxLength;
      data := new Byte[8 * bitmapBytes * maxLength](_ => 0);
      bitmap := new bv8[bitmapBytes](_ => 0);
      new;
      hide Bit8, UpToNul;
      assert Valid() && AllClean() by {
        forall slot | Inside(slot) ensures Clean(Slot(slot)) { ZerosAreClean(Slot(slot)); }
      }
      forall slot | 0 <= slot < 8 * bitmapBytes ensures !Taken(slot) { NoBits(slot % 8); }
    }

    ghost predicate Taken(slot: nat)
      requires slot < 8 * bitmap.Length
      reads bitmap
    {
      Bit8(bitmap[slot / 8], slot % 8)
    }

    /** Where a slot begins. */
    function At(slot: nat): nat { slot * maxLength }

    ghost predicate Inside(slot: nat) { At(slot) + maxLength <= data.Length }

    /** The bytes of a slot. */
    ghost function Slot(slot: nat): seq<Byte>
      requires Inside(slot)
      reads data
    {
      data[At(slot)..At(slot) + maxLength]
    }

    /** What a slot reads as, in use or not. */
    ghost function Reads(slot: nat): seq<Byte>
      reads data
    {
      if Inside(slot) then UpToNul(Slot(slot)) else []
    }

    /** What a slot in use reads back as. */
    ghost function Live(slot: nat): Option<seq<Byte>>
      reads data, bitmap
    {
      if slot < 8 * bitmap.Length && Taken(slot) then Some(Reads(slot)) else None
    }

    /** In every slot only zeros follow the string. */
    ghost predicate AllClean()
      reads data, bitmap
    {
      forall slot :: 0 <= slot < 8 * bitmap.Length && Inside(slot) ==> Clean(Slot(slot))
    }

    lemma AllInside()
      requires Valid()
      ensures (data as object) != bitmap && forall slot :: 0 <= slot < 8 * bitmap.Length ==> Inside(slot)
    {
      forall slot | 0 <= slot < 8 * bitmap.Length ensures Inside(slot) { Apart(slot, 8 * bitmap.Length, maxLength); }
    }

    lemma SlotsApart(slot: nat, j: nat)
      requires slot != j
      ensures At(slot) + maxLength <= At(j) || At(j) + maxLength <= At(slot)
    {
      if slot < j { Apart(slot, j, maxLength); } else { Apart(j, slot, maxLength); }
    }

    /** Stores a string in a slot, with zeros behind it. */
    method Write(slot: nat, text: seq<Byte>)
      requires Valid() && slot < 8 * bitmap.Length && |text| <= maxLength && NulFree(text)
      modifies data
      ensures Inside(slot) && UpToNul(Slot(slot)) == text && Clean(Slot(slot))
      ensures forall j :: 0 <= j < 8 * bitmap.Length && j != slot ==> Inside(j) && Slot(j) == old(Slot(j))
    {
      hide At, NulFree, UpToNul;
      AllInside();
      assert Inside(slot);
      CopyAndFill(data, At(slot), maxLength, text);
      Padded(Slot(slot), text);
      forall j | 0 <= j < 8 * bitmap.Length && j != slot ensures Inside(j) && Slot(j) == old(Slot(j)) {
        SlotsApart(slot, j);
      }
    }

    method SetBit(slot: nat)
      requires slot < 8 * bitmap.Length
      modifies bitmap
      ensures forall j :: 0 <= j < 8 * bitmap.Length ==> Taken(j) == (j == slot || old(Taken(j)))
    {
      hide Bit8, OneBit8;
      SetBits(bitmap[slot / 8], slot % 8);
      bitmap[slot / 8] := bitmap[slot / 8] | OneBit8(slot % 8);
    }

    /** Flips the bit of a slot. What the slots hold stays. */
    method Flip(slot: nat)
      requires Valid() && slot < 8 * bitmap.Length && AllClean()
      modifies bitmap
      ensures AllClean()
      ensures Live(slot) == if old(Live(slot)).Some? then None else Some(old(Reads(slot)))
      ensures forall j: nat :: j != slot ==> Live(j) == old(Live(j))
    {
      assert (data as object) != bitmap;
      hide Valid, Taken, Slot, Clean, Inside;
      FlipBit(slot);
    }

    method FlipBit(slot: nat)
      requires slot < 8 * bitmap.Length
      modifies bitmap
      ensures forall j :: 0 <= j < 8 * bitmap.Length ==> Taken(j) == ((j == slot) != old(Taken(j)))
    {
      hide Bit8, OneBit8;
      FlipBits(bitmap[slot / 8], slot % 8);
      bitmap[slot / 8] := bitmap[slot / 8] ^ OneBit8(slot % 8);
    }

    /** Takes a free slot for a string. */
    method Take(slot: nat, text: seq<Byte>)
      requires Valid() && slot < 8 * bitmap.Length && |text| <= maxLength && NulFree(text) && !Taken(slot) && AllClean()
      modifies data, bitmap
      ensures AllClean()
      ensures forall j: nat :: Live(j) == if j == slot then Some(text) else old(Live(j))
    {
      hide Valid, At, NulFree, UpToNul, Taken, Clean;
      AllInside();
      SetBit(slot);
      Write(slot, text);
      forall j: nat ensures Live(j) == if j == slot then Some(text) else old(Live(j)) {
        if j < 8 * bitmap.Length { assert Inside(j); }
      }
    }

    /** Stores a string in the lowest free slot; fails only when all slots are in use. */
    method Allocate(text: seq<Byte>) returns (r: Option<nat>, ghost slot: nat)
      requires Valid() && |text| <= maxLength && NulFree(text) && AllClean()
      modifies data, bitmap
      ensures AllClean()
      ensures r.None? <==> forall j :: 0 <= j < 8 * bitmap.Length ==> old(Live(j)).Some?
      ensures r.None? ==> forall j: nat :: Live(j) == old(Live(j))
      ensures r.Some? ==> slot < 8 * bitmap.Length && r.value == At(slot) && old(Live(slot)).None?
      ensures r.Some? ==>
          (forall j :: 0 <= j < slot ==> old(Live(j)).Some?)
            && forall j: nat :: Live(j) == if j == slot then Some(text) else old(Live(j))
    {
      hide Valid, At, NulFree, UpToNul, Clean;
      AllInside();
      slot := 0;
      for e := 0 to bitmap.Length
        invariant forall j :: 0 <= j < 8 * e ==> old(Taken(j))
        invariant unchanged(data) && unchanged(bitmap)
      {
        if bitmap[e] != 0xFF {
          for b := 0 to 8
            invariant forall j :: 0 <= j < 8 * e + b ==> old(Taken(j))
            invariant unchanged(data) && unchanged(bitmap)
          {
            ThisBit(e, b);
            if bitmap[e] & OneBit8(b) == 0 {
              slot := 8 * e + b;
              assert old(Live(slot).None?);
              Take(8 * e + b, text);
              return Some(At(8 * e + b)), slot;
            }
          }
          FullEntry(e);
        }
        WholeEntry(e);
      }
      return None, slot;
    }

    lemma ThisBit(e: nat, b: nat)
      requires e < bitmap.Length && b < 8
      ensures Taken(8 * e + b) <==> bitmap[e] & OneBit8(b) != 0
    {
      assert (8 * e + b) / 8 == e && (8 * e + b) % 8 == b;
    }

    lemma FullEntry(e: nat)
      requires e < bitmap.Length && forall j :: 0 <= j < 8 * e + 8 ==> Taken(j)
      ensures bitmap[e] == 0xFF
    {
      hide Bit8;
      forall b | 0 <= b < 8 ensures Bit8(bitmap[e], b) {
        assert Taken(8 * e + b) && (8 * e + b) / 8 == e && (8 * e + b) % 8 == b;
      }
      AllSet8(bitmap[e]);
    }

    lemma WholeEntry(e: nat)
      requires e < bitmap.Length && bitmap[e] == 0xFF && forall j :: 0 <= j < 8 * e ==> Taken(j)
      ensures forall j :: 0 <= j < 8 * e + 8 ==> Taken(j)
    {
      hide Bit8;
      forall j | 8 * e <= j < 8 * e + 8 ensures Taken(j) { FullByte(j % 8); }
    }

    /** The loop of `as_string`. */
    method Read(slot: nat) returns (text: seq<Byte>)
      requires Valid() && slot < 8 * bitmap.Length
      ensures Inside(slot) && text == UpToNul(Slot(slot))
    {
      AllInside();
      assert Inside(slot);
      hide Valid, At;
      text := [];
      for i := 0 to maxLength
        invariant |text| == i && Slot(slot)[..i] == text && NulFree(text)
      {
        if data[At(slot) + i] == 0 {
          UpToNulAt(Slot(slot), i);
          return;
        }
        text := text + [data[At(slot) + i]];
      }
      UpToNulAt(Slot(slot), maxLength);
    }

    /** `rename` with a name of the same size class; `oldLength` is the length of the name it replaces. */
    method Rename(slot: nat, oldLength: nat, text: seq<Byte>)
      requires Valid() && AllClean() && Live(slot).Some? && oldLength == |Live(slot).value| && |text| <= maxLength
          && NulFree(text)
      modifies data
      ensures AllClean()
      ensures forall j: nat :: Live(j) == if j == slot then Some(text) else old(Live(j))
    {
      AllInside();
      hide Valid, At, NulFree, UpToNul, Taken, Clean;
      ghost var before := Slot(slot);
      assert Inside(slot) && Clean(before);
      Replace(data, At(slot), maxLength, oldLength, text);
      forall j: nat | j < 8 * bitmap.Length && j != slot ensures Slot(j) == old(Slot(j)) {
        assert Inside(j);
        SlotsApart(slot, j);
      }
      forall j: nat ensures Live(j) == if j == slot then Some(text) else old(Live(j)) {}
    }
  }

  // ----- the three sizes together

  const BASE16: nat := 32768
  const BASE32: nat := 65536
  const BASE_ABOVE32: nat := 81920

  datatype StringType = Length8 | Length16 | Length32 | Above32

  function TypeOf(offset: nat): StringType {
    if BASE16 > offset then Length8
    else if BASE32 > offset >= BASE16 then Length16
    else if BASE_ABOVE32 > offset >= BASE32 then Length32
    else Above32
  }

  /** The size class of a name by its length. */
  function TypeFor(length: nat): StringType {
    if 8 >= length then Length8 else if 16 >= length then Length16 else if 32 >= length then Length32 else Above32
  }

  function SizeOf(t: StringType): nat {
    match t case Length8 => 8 case Length16 => 16 case Length32 => 32 case Above32 => 255
  }

  function BaseOf(t: StringType): nat {
    match t case Length8 => 0 case Length16 => BASE16 case Length32 => BASE32 case Above32 => BASE_ABOVE32
  }

  function Slots(t: StringType): nat {
    match t case Length8 => 4096 case Length16 => 2048 case Length32 => 512 case Above32 => 0
  }

  /** Offsets at which a name may begin. */
  predicate Aligned(offset: nat) {
    TypeOf(offset) != Above32 && (offset - BaseOf(TypeOf(offset))) % SizeOf(TypeOf(offset)) == 0
  }

  /** The offsets for names of this length: 4096 slots of 8 bytes, behind them 2048 of 16, behind them 512 of 32. */
  ghost predicate OffsetFor(length: nat, o: nat) {
    if length <= 8 then o < 32768 && o % 8 == 0
    else if length <= 16 then 32768 <= o < 65536 && o % 16 == 0
    else length <= 32 && 65536 <= o < 81920 && o % 32 == 0
  }

  /** How many there are. */
  function SlotsFor(length: nat): nat {
    if length <= 8 then 4096 else if length <= 16 then 2048 else if length <= 32 then 512 else 0
  }

  lemma OffsetsFor(length: nat)
    ensures forall o: nat :: OffsetFor(length, o) <==> Aligned(o) && TypeOf(o) == TypeFor(length)
    ensures Slots(TypeFor(length)) == SlotsFor(length)
  {
  }

  /** The table for names of this length is full. */
  ghost predicate NoSlotFor(names: map<nat, seq<Byte>>, length: nat) {
    forall o: nat :: Aligned(o) && TypeOf(o) == TypeFor(length) ==> o in names
  }

  lemma FirstOffset(length: nat)
    ensures length <= 32 ==> OffsetFor(length, if length <= 8 then 0 else if length <= 16 then 32768 else 65536)
    ensures length > 32 ==> forall o: nat :: !OffsetFor(length, o)
  {
  }

  /** The lowest free offset for a name of this length. */
  ghost predicate LowestFree(names: map<nat, seq<Byte>>, length: nat, offset: nat) {
    && Aligned(offset) && TypeOf(offset) == TypeFor(length) && offset !in names
    && forall o: nat :: Aligned(o) && TypeOf(o) == TypeFor(length) && o < offset ==> o in names
  }

  lemma LowestIsFree(names: map<nat, seq<Byte>>, length: nat, offset: nat)
    requires LowestFree(names, length, offset)
    ensures Aligned(offset) && TypeOf(offset) == TypeFor(length) && offset !in names
  {
  }

  function SlotOf(offset: nat): nat
    requires Aligned(offset)
  {
    (offset - BaseOf(TypeOf(offset))) / SizeOf(TypeOf(offset))
  }

  lemma SlotTimesSize(offset: nat)
    requires Aligned(offset)
    ensures SlotOf(offset) * SizeOf(TypeOf(offset))
         == if offset < 32768 then offset else if offset < 65536 then offset - 32768 else offset - 65536
  {
  }

  /** The slot whose bit is flipped to free an offset: the code divides by 8 for every size. */
  function FlippedSlot(offset: nat): nat
    requires Aligned(offset)
  {
    (offset - BaseOf(TypeOf(offset))) / 8
  }

  function Toggled(offset: nat): nat
    requires Aligned(offset)
  {
    BaseOf(TypeOf(offset)) + FlippedSlot(offset) * SizeOf(TypeOf(offset))
  }

  /** A name disappears, or what a free slot holds turns into a name. */
  ghost function Flipped(names: map<nat, seq<Byte>>, offset: nat, stale: seq<Byte>): map<nat, seq<Byte>>
    requires Aligned(offset)
  {
    var o := Toggled(offset);
    if o in names then names - {o} else names[o := stale]
  }

  /** Freeing a name removes it and nothing else exactly for names of up to 8 bytes and in the first slot of a
      table. */
  lemma FreedExactly(names: map<nat, seq<Byte>>, offset: nat, stale: seq<Byte>)
    requires Aligned(offset) && offset in names
    ensures Flipped(names, offset, stale) == names - {offset} <==> TypeOf(offset) == Length8 || SlotOf(offset) == 0
  {
    var o := Toggled(offset);
    if TypeOf(offset) == Length8 || SlotOf(offset) == 0 {
      assert o == offset;
    } else {
      assert o != offset;
      assert offset in Flipped(names, offset, stale);
    }
  }

  /** The offset that is freed instead lies as far behind as the name lies behind the start of the table of 16-byte
      slots, and three times as far in the table of 32-byte slots. */
  lemma FreedInstead(offset: nat)
    requires Aligned(offset)
    ensures Toggled(offset) - offset
         == if offset < 32768 then 0 else if offset < 65536 then offset - 32768 else 3 * (offset - 65536)
  {
  }

  /** The new text fits the table that the name is in. */
  predicate Stays(offset: nat, text: seq<Byte>) { 0 < |text| && TypeFor(|text|) == TypeOf(offset) }

  /** Two names never share a byte, of whatever sizes they are. */
  lemma NamesApart(a: nat, b: nat)
    requires Aligned(a) && Aligned(b) && a < b
    ensures a + SizeOf(TypeOf(a)) <= b
  {
    var t := TypeOf(a);
    if TypeOf(b) == t {
      GridApart(a - BaseOf(t), b - BaseOf(t), SizeOf(t));
    } else {
      GridApart(a - BaseOf(t), EndOf(t) - BaseOf(t), SizeOf(t));
    }
  }

  function EndOf(t: StringType): nat { match t case Length8 => BASE16 case Length16 => BASE32 case _ => BASE_ABOVE32 }

  class StringAllocator {
    const c8: SizeClass
    const c16: SizeClass
    const c32: SizeClass
    /** The names stored, by offset. */
    ghost var names: map<nat, seq<Byte>>

    ghost function Repr(): set<object> { {c8.data, c8.bitmap, c16.data, c16.bitmap, c32.data, c32.bitmap} }

    function Class(t: StringType): SizeClass
      requires t != Above32
    {
      match t case Length8 => c8 case Length16 => c16 case Length32 => c32
    }

    ghost predicate Valid()
      reads this, Repr()
    {
      Shaped() && forall o: nat :: NameAt(o) == if o in names then Some(names[o]) else None
    }

    ghost predicate Shaped()
      reads Repr()
    {
      && c8.Repr() !! c16.Repr() !! c32.Repr()
      && c8.Valid() && c8.maxLength == 8 && c8.bitmap.Length == 512
      && c16.Valid() && c16.maxLength == 16 && c16.bitmap.Length == 256
      && c32.Valid() && c32.maxLength == 32 && c32.bitmap.Length == 64
      && c8.AllClean() && c16.AllClean() && c32.AllClean()
    }

    constructor ()
      ensures Valid() && fresh(Repr()) && names == map[]
    {
      names := map[];
      c8 := new SizeClass(8, 512);
      c16 := new SizeClass(16, 256);
      c32 := new SizeClass(32, 64);
    }

    /** The name stored at an offset. */
    ghost function NameAt(offset: nat): Option<seq<Byte>>
      reads Repr()
    {
      if Aligned(offset) then Class(TypeOf(offset)).Live(SlotOf(offset)) else None
    }

    ghost function LiveIn(t: StringType, slot: nat): Option<seq<Byte>>
      reads Repr()
    {
      if t == Above32 then None else Class(t).Live(slot)
    }

    /** Stores a name in the table of its size. */
    method AllocateIn(t: StringType, text: seq<Byte>) returns (r: Option<nat>, ghost slot: nat)
      requires Shaped() && t == TypeFor(|text|) && |text| <= 32 && NulFree(text)
      modifies Repr()
      ensures Shaped() && (r.None? <==> forall j :: 0 <= j < Slots(t) ==> old(LiveIn(t, j)).Some?)
      ensures r.Some? ==> slot < Slots(t) && r.value == slot * SizeOf(t) && old(LiveIn(t, slot)).None?
      ensures r.Some? ==> forall j :: 0 <= j < slot ==> old(LiveIn(t, j)).Some?
      ensures forall s, j: nat ::
          LiveIn(s, j) == if s == t && j == slot && r.Some? then Some(text) else old(LiveIn(s, j))
    {
      hide UpToNul, Bit8, NulFree;
      match t {
        case Length8 => r, slot := c8.Allocate(text);
        case Length16 => r, slot := c16.Allocate(text);
        case Length32 => r, slot := c32.Allocate(text);
      }
      if r.Some? { assert old(LiveIn(t, slot)).None?; }
    }

    lemma NameIsLive(o: nat)
      requires Aligned(o)
      ensures NameAt(o) == LiveIn(TypeOf(o), SlotOf(o)) && SlotOf(o) < Slots(TypeOf(o))
    {
    }

    method AllocateAt(text: seq<Byte>) returns (r: Option<nat>)
      requires Shaped() && |text| <= 32 && NulFree(text)
      modifies Repr()
      ensures Shaped()
      ensures r.None? ==> forall o: nat :: Aligned(o) && TypeOf(o) == TypeFor(|text|) ==> old(NameAt(o)).Some?
      ensures r.None? ==> forall o: nat :: NameAt(o) == old(NameAt(o))
      ensures r.Some? ==> Aligned(r.value) && TypeOf(r.value) == TypeFor(|text|) && old(NameAt(r.value)) == None
      ensures r.Some? ==>
          forall o: nat :: Aligned(o) && TypeOf(o) == TypeFor(|text|) && o < r.value ==> old(NameAt(o)).Some?
      ensures r.Some? ==> forall o: nat :: NameAt(o) == if o == r.value then Some(text) else old(NameAt(o))
    {
      hide Shaped, Aligned, SlotOf, TypeOf, LiveIn, Repr;
      var t := TypeFor(|text|);
      var internal;
      ghost var slot;
      forall o: nat | Aligned(o) ensures NameAt(o) == LiveIn(TypeOf(o), SlotOf(o)) { NameIsLive(o); }
      internal, slot := AllocateIn(t, text);
      r := if internal.Some? then Some(BaseOf(t) + internal.value) else None;
      if r.Some? {
        SlotBack(t, slot);
        assert old(NameAt(r.value)).None?;
      } else {
        assert forall j :: 0 <= j < Slots(t) ==> old(LiveIn(t, j)).Some?;
      }
      forall o: nat | Aligned(o)
        ensures r.Some? && o == r.value ==> NameAt(o) == Some(text)
        ensures !(r.Some? && o == r.value) ==> NameAt(o) == old(NameAt(o))
        ensures (r.None? || o < r.value) && TypeOf(o) == t ==> old(NameAt(o)).Some?
      {
        NameIsLive(o);
        if r.Some? && o != r.value && TypeOf(o) == t {
          SlotsDiffer(o, r.value);
          if o < r.value { SlotsOrdered(o, r.value); }
        }
      }
    }

    /** Stores a name at the lowest free offset for its length; fails only when the table for it is full. `above` is
        what the store of longer names would hand out: the copy to there panics, because its destination is one byte
        longer than the name. */
    method Allocate(text: seq<Byte>, above: Option<nat>) returns (r: Option<nat>, panicked: bool)
      requires Valid() && NulFree(text)
      modifies this`names, Repr()
      ensures Valid() && panicked == (|text| > 32 && above.Some?)
      ensures r.None? <==> |text| > 32 || NoSlotFor(old(names), |text|)
      ensures r.None? ==> names == old(names)
      ensures r.Some? ==> LowestFree(old(names), |text|, r.value) && names == old(names)[r.value := text]
      ensures r.None? <==> forall o: nat :: OffsetFor(|text|, o) ==> o in old(names)
      ensures r.Some? ==> OffsetFor(|text|, r.value) && r.value !in old(names)
                          && forall o: nat :: OffsetFor(|text|, o) && o < r.value ==> o in old(names)
      ensures old(names) == map[] && |text| <= 32 ==>
                r == Some(if |text| <= 8 then 0 else if |text| <= 16 then 32768 else 65536)
    {
      hide Shaped, Aligned, TypeOf, TypeFor, NameAt, NulFree;
      OffsetsFor(|text|);
      FirstOffset(|text|);
      if |text| > 32 {
        return None, above.Some?;
      }
      panicked := false;
      r := AllocateAt(text);
      if r.Some? {
        assert r.value !in names;
        names := names[r.value := text];
      }
    }

    /** What the bytes at an offset read as, whether a name is stored there or not. */
    ghost function ReadsAt(offset: nat): seq<Byte>
      reads Repr()
    {
      if Aligned(offset) then Class(TypeOf(offset)).Reads(SlotOf(offset)) else []
    }

    /** What all offsets read as. */
    ghost function Readings(): map<nat, seq<Byte>>
      reads Repr()
    {
      map o | 0 <= o < BASE_ABOVE32 && Aligned(o) :: ReadsAt(o)
    }

    lemma NamesRead()
      requires Valid()
      ensures forall o :: o in names ==> Aligned(o) && o in Readings() && Readings()[o] == names[o]
    {
      hide UpToNul;
      forall o | o in names ensures Aligned(o) && ReadsAt(o) == names[o] { assert NameAt(o) == Some(names[o]); }
      forall o: nat | Aligned(o) ensures o < BASE_ABOVE32 { AlignedBelow(o); }
    }

    method ReadAt(offset: nat) returns (text: seq<Byte>)
      requires Shaped() && Aligned(offset)
      ensures text == ReadsAt(offset)
    {
      hide UpToNul, Bit8;
      NameIsLive(offset);
      match TypeOf(offset) {
        case Length8 => text := c8.Read(offset / 8);
        case Length16 => text := c16.Read((offset - BASE16) / 16);
        case Length32 => text := c32.Read((offset - BASE32) / 32);
      }
    }

    /** The bytes of a name begin at its offset, counted from the start of its table. */
    lemma NameIsAtOffset(offset: nat)
      requires Shaped() && Aligned(offset)
      ensures Class(TypeOf(offset)).At(SlotOf(offset))
           == if offset < 32768 then offset else if offset < 65536 then offset - 32768 else offset - 65536
    {
      hide UpToNul, Bit8, SlotOf, SizeClass.AllClean;
      SlotTimesSize(offset);
    }

    /** Reads the text at an offset, whether a name is stored there or not. */
    method AsString(offset: nat) returns (text: seq<Byte>)
      requires Valid() && Aligned(offset)
      ensures Valid() && offset in Readings() && text == Readings()[offset]
      ensures offset in names ==> text == names[offset]
    {
      hide UpToNul, TypeOf, SlotOf;
      NamesRead();
      AlignedBelow(offset);
      text := ReadAt(offset);
    }

    method RenameAt(offset: nat, oldLength: nat, text: seq<Byte>)
      requires Shaped() && NameAt(offset).Some? && oldLength == |NameAt(offset).value|
      requires NulFree(text) && 0 < |text| && TypeFor(|text|) == TypeOf(offset)
      modifies Repr()
      ensures Shaped() && forall o: nat :: NameAt(o) == if o == offset then Some(text) else old(NameAt(o))
    {
      RenameIn(offset, oldLength, text);
      hide Shaped, Aligned, SlotOf, TypeOf, LiveIn, Repr;
      forall o: nat ensures NameAt(o) == if o == offset then Some(text) else old(NameAt(o)) {
        if Aligned(o) {
          NameIsLive(o);
          if o != offset && TypeOf(o) == TypeOf(offset) { SlotsDiffer(o, offset); }
        }
      }
    }

    method FlipIn(t: StringType, slot: nat)
      requires Shaped() && slot < Slots(t)
      modifies Repr()
      ensures Shaped()
      ensures LiveIn(t, slot) == if old(LiveIn(t, slot)).Some? then None else Some(old(Class(t).Reads(slot)))
      ensures forall s, j: nat :: s != t || j != slot ==> LiveIn(s, j) == old(LiveIn(s, j))
    {
      hide UpToNul, Bit8;
      match t {
        case Length8 => c8.Flip(slot);
        case Length16 => c16.Flip(slot);
        case Length32 => c32.Flip(slot);
      }
    }

    /** Flips the bit that the code takes for that of an offset; panics when there is no such bit. */
    method FlipAt(offset: nat) returns (panicked: bool)
      requires Shaped() && Aligned(offset)
      modifies Repr()
      ensures Shaped() && panicked == (FlippedSlot(offset) >= Slots(TypeOf(offset)))
      ensures panicked ==> forall o: nat :: NameAt(o) == old(NameAt(o))
      ensures !panicked ==> var o := Toggled(offset);
                NameAt(o) == if old(NameAt(o)).Some? then None else Some(old(ReadsAt(o)))
      ensures !panicked ==> forall o: nat :: o != Toggled(offset) ==> NameAt(o) == old(NameAt(o))
    {
      hide UpToNul, Bit8;
      var t, slot := TypeOf(offset), FlippedSlot(offset);
      if slot >= Slots(t) {
        return true;
      }
      ghost var o' := Toggled(offset);
      forall o: nat | Aligned(o) ensures NameAt(o) == LiveIn(TypeOf(o), SlotOf(o)) { NameIsLive(o); }
      SlotBack(t, slot);
      assert ReadsAt(o') == Class(t).Reads(slot);
      hide Shaped, Aligned, SlotOf, TypeOf, LiveIn, Repr;
      FlipIn(t, slot);
      forall o: nat | o != o' ensures NameAt(o) == old(NameAt(o)) {
        if Aligned(o) {
          NameIsLive(o);
          if TypeOf(o) == t { SlotsDiffer(o, o'); }
        }
      }
      NameIsLive(o');
      return false;
    }

    method FreeSlot(offset: nat) returns (panicked: bool)
      requires Valid() && Aligned(offset)
      modifies this`names, Repr()
      ensures Valid() && panicked == (FlippedSlot(offset) >= Slots(TypeOf(offset)))
      ensures names == if panicked then old(names) else Flipped(old(names), offset, old(ReadsAt(Toggled(offset))))
    {
      hide Shaped, NameAt, ReadsAt, Aligned, TypeOf, FlippedSlot, Toggled;
      panicked := FlipAt(offset);
      if !panicked {
        ghost var o := Toggled(offset);
        assert old(NameAt(o)).Some? <==> o in names;
        names := Flipped(names, offset, old(ReadsAt(o)));
      }
    }

    /** `rename`, which also moves a name to the table for another length, and frees it for an empty text. */
    method Rename(offset: nat, oldLength: nat, text: seq<Byte>, above: Option<nat>)
      returns (r: Option<nat>, panicked: bool)
      requires Valid() && offset in names && oldLength == |names[offset]| && NulFree(text)
      modifies this`names, Repr()
      ensures Valid()
      ensures var rest := Flipped(old(names), offset, old(ReadsAt(Toggled(offset))));
              if Stays(offset, text) then r == Some(offset) && !panicked && names == old(names)[offset := text]
              else if FlippedSlot(offset) >= Slots(TypeOf(offset)) then panicked && names == old(names)
              else if text == [] then r == Some(0) && !panicked && names == rest
              else
                && panicked == (|text| > 32 && above.Some?)
                && (r.None? <==> |text| > 32 || NoSlotFor(rest, |text|)) && (r.None? ==> names == rest)
                && (r.Some? ==> LowestFree(rest, |text|, r.value) && names == rest[r.value := text])
    {
      hide Shaped, TypeOf, NameAt, NulFree, Flipped, LowestFree, NoSlotFor, ReadsAt;
      assert NameAt(offset) == Some(names[offset]);
      NamesAligned(offset);
      if Stays(offset, text) {
        RenameAt(offset, oldLength, text);
        names := names[offset := text];
        return Some(offset), false;
      }
      panicked := FreeSlot(offset);
      if panicked {
        return None, true;
      }
      if text == [] {
        return Some(0), false;
      }
      r, panicked := Allocate(text, above);
    }

    lemma NamesAligned(offset: nat)
      requires NameAt(offset).Some?
      ensures Aligned(offset)
    {
    }

    method RenameIn(offset: nat, oldLength: nat, text: seq<Byte>)
      requires Shaped() && NameAt(offset).Some? && oldLength == |NameAt(offset).value|
      requires NulFree(text) && 0 < |text| && TypeFor(|text|) == TypeOf(offset)
      modifies Repr()
      ensures Shaped() && forall o: nat | Aligned(o) :: old(NameAt(o)) == old(LiveIn(TypeOf(o), SlotOf(o)))
      ensures forall s, j: nat ::
          LiveIn(s, j) == if s == TypeOf(offset) && j == SlotOf(offset) then Some(text) else old(LiveIn(s, j))
    {
      hide UpToNul, Bit8, NulFree;
      forall o: nat | Aligned(o) ensures NameAt(o) == LiveIn(TypeOf(o), SlotOf(o)) { NameIsLive(o); }
      var slot := SlotOf(offset);
      hide Aligned, SlotOf, TypeOf, NameAt;
      match TypeOf(offset) {
        case Length8 => c8.Rename(slot, oldLength, text);
        case Length16 => c16.Rename(slot, oldLength, text);
        case Length32 => c32.Rename(slot, oldLength, text);
      }
    }
  }

  function OffsetOf(t: StringType, slot: nat): nat { BaseOf(t) + slot * SizeOf(t) }

  lemma SlotBack(t: StringType, slot: nat)
    requires slot < Slots(t)
    ensures var o := OffsetOf(t, slot); TypeOf(o) == t && Aligned(o) && SlotOf(o) == slot
  {
    match t {
      case Length8 => assert 8 * slot % 8 == 0;
      case Length16 => assert 16 * slot % 16 == 0;
      case Length32 => assert 32 * slot % 32 == 0;
    }
  }

  lemma SlotsDiffer(a: nat, b: nat)
    requires Aligned(a) && Aligned(b) && TypeOf(a) == TypeOf(b) && a != b
    ensures SlotOf(a) != SlotOf(b)
  {
  }

  lemma SlotsOrdered(a: nat, b: nat)
    requires Aligned(a) && Aligned(b) && TypeOf(a) == TypeOf(b) && a < b
    ensures SlotOf(a) < SlotOf(b)
  {
  }

  // ----- how full a table is

  /** All offsets of a table. */
  ghost function Grid(t: StringType): set<nat> {
    set o | 0 <= o < BASE_ABOVE32 && Aligned(o) && TypeOf(o) == t
  }

  ghost function InTable(names: map<nat, seq<Byte>>, t: StringType): set<nat> {
    set o | o in names && TypeOf(o) == t
  }

  /** No name of this length can be stored when as many names as the table has slots are in it, and not before. */
  lemma FullExactly(names: map<nat, seq<Byte>>, length: nat)
    requires length <= 32 && forall o :: o in names ==> Aligned(o)
    ensures NoSlotFor(names, length) <==> |InTable(names, TypeFor(length))| == Slots(TypeFor(length))
  {
    var t := TypeFor(length);
    hide Aligned, TypeFor;
    GridSize(t);
    forall o: nat | Aligned(o) ensures o < BASE_ABOVE32 { AlignedBelow(o); }
    assert InTable(names, t) <= Grid(t);
    SameSizeSame(InTable(names, t), Grid(t));
    if NoSlotFor(names, length) {
      assert InTable(names, t) == Grid(t);
    }
    if InTable(names, t) == Grid(t) {
      forall o: nat | Aligned(o) && TypeOf(o) == t ensures o in names { assert o in Grid(t); }
    }
  }

  lemma AlignedBelow(o: nat)
    requires Aligned(o)
    ensures o < BASE_ABOVE32
  {
  }

  lemma SameSizeSame(xs: set<nat>, ys: set<nat>)
    requires xs <= ys
    ensures |xs| == |ys| <==> xs == ys
  {
    assert ys == xs + (ys - xs);
    assert |ys| == |xs| + |ys - xs|;
  }

  ghost function FirstOffsets(t: StringType, n: nat): set<nat> {
    if n == 0 then {} else FirstOffsets(t, n - 1) + {OffsetOf(t, n - 1)}
  }

  lemma {:induction false} FirstOffsetsAre(t: StringType, n: nat)
    requires n <= Slots(t)
    ensures |FirstOffsets(t, n)| == n
    ensures forall o: nat :: o in FirstOffsets(t, n) <==> Aligned(o) && TypeOf(o) == t && SlotOf(o) < n
  {
    hide Aligned, TypeOf, SlotOf, OffsetOf;
    if n > 0 {
      FirstOffsetsAre(t, n - 1);
      SlotBack(t, n - 1);
      forall o: nat | Aligned(o) && TypeOf(o) == t && SlotOf(o) == n - 1 ensures o == OffsetOf(t, n - 1) {
        SlotForth(o);
      }
    }
  }

  lemma GridSize(t: StringType)
    ensures |Grid(t)| == Slots(t)
  {
    hide Aligned, TypeOf, SlotOf;
    FirstOffsetsAre(t, Slots(t));
    forall o: nat | Aligned(o) ensures o < BASE_ABOVE32 && SlotOf(o) < Slots(TypeOf(o)) {
      AlignedBelow(o);
      SlotForth(o);
    }
    assert Grid(t) == FirstOffsets(t, Slots(t));
  }

  lemma SlotForth(o: nat)
    requires Aligned(o)
    ensures o == OffsetOf(TypeOf(o), SlotOf(o)) && SlotOf(o) < Slots(TypeOf(o))
  {
  }

  /** A map without repeated values has as many of them as keys. */
  lemma {:induction false} SameCount<T, U>(m: map<T, U>)
    requires forall x, y :: x in m && y in m && m[x] == m[y] ==> x == y
    ensures |m.Values| == |m.Keys|
    decreases |m|
  {
    if x :| x in m {
      var rest := m - {x};
      SameCount(rest);
      assert rest.Keys == m.Keys - {x};
      assert m.Values == rest.Values + {m[x]} by {
        forall v | v in m.Values ensures v in rest.Values + {m[x]} {
          var y :| y in m && m[y] == v;
          if y != x { assert y in rest; }
        }
      }
      assert m[x] !in rest.Values;
    } else {
      assert m.Keys == {} && m.Values == {};
    }
  }
}
