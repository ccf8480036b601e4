/** The page-frame allocator (allocator.rs, `Allocator`).

`bitmap` keeps `entries` words and one guard word behind them, because both searches of the source
also look at word number `entries`. Nothing in the source fills that word: where it happens to be all
ones no search can leave the range; where it is not, `Strays` says when a search does. Every array
access below is checked, so no search reads behind the guard. */
module Allocators {
  import opened Bits
  import opened Bitmap
  import opened Memory

  /** Where a request for `n` pages may be placed: up to 32 pages must lie inside one word. */
  ghost predicate Fits(words: seq<bv32>, s: nat, n: nat) {
    FreeRun(words, s, n) && (n <= 32 ==> s % 32 + n <= 32)
  }

  ghost predicate Guarded(words: seq<bv32>) {
    |words| > 0 && words[|words| - 1] == ALL_ONES
  }

  /** Some placement for `n` pages begins in word `j`. */
  ghost predicate WordFits(words: seq<bv32>, j: nat, n: nat) {
    exists s: nat :: 32 * j <= s < 32 * j + 32 && Fits(words, s, n)
  }

  /** A request of at most 32 pages is served from the guard word: it has room, and either the search begins
      there or no word before it has. */
  ghost predicate Strays(words: seq<bv32>, current: nat, n: nat) {
    && 1 <= n <= 32 && |words| > 0 && WordFits(words, |words| - 1, n)
    && (current == |words| - 1 || forall j: nat :: j < |words| - 1 ==> !WordFits(words, j, n))
  }

  /** A request of more than 32 pages stays within the range: by the guard, or because there is a place in it. */
  ghost predicate Contained(words: seq<bv32>, n: nat) {
    Guarded(words) || exists s: nat :: FreeRun(words, s, n) && s + n <= 32 * (|words| - 1)
  }

  /** A request for `n` pages stays within the range, from whichever word of it the search begins. */
  ghost predicate Confined(words: seq<bv32>, n: nat) {
    if n > 32 then Contained(words, n)
    else |words| > 0 && WordFits(words, |words| - 1, n) ==> exists j: nat :: j < |words| - 1 && WordFits(words, j, n)
  }

  /** Which word a small request is served from, and where in it: the current word if it has room, else the
      lowest word that has; the lowest place in that word. */
  ghost predicate Placed(words: seq<bv32>, current: nat, s: nat, n: nat) {
    && (if WordFits(words, current, n) then s / 32 == current
      else forall j: nat :: j < s / 32 ==> !WordFits(words, j, n))
    && forall t: nat :: 32 * (s / 32) <= t < s ==> !Fits(words, t, n)
  }

  /** The frames in use: frame `first` is page 0 of the bitmap. The guard's own pages are left out. */
  ghost function Used(words: seq<bv32>, first: nat): set<nat> {
    set f | first <= f < first + 32 * (|words| - 1) && FrameUsed(words, first, f)
  }

  ghost function Unused(all: set<nat>, used: set<nat>): nat { |all - used| }

  predicate FrameUsed(words: seq<bv32>, first: nat, f: nat) {
    first <= f < first + 32 * |words| && Occupied(words, f - first)
  }

  function FirstPage(addend: nat, b: MemoryBlock): int { (b.base - addend) / PAGE }

  /** The outcome of `alloc`, as a relation between the bitmap before and after. */
  ghost predicate AllocSpec(before: seq<bv32>, addend: nat, n: nat, r: Result<MemoryBlock>, after: seq<bv32>) {
    match r
    case Err(e) =>
      && after == before
      && (if n == 0 then e == AllocationError else e == Nospace && forall s: nat :: !Fits(before, s, n))
    case Ok(b) =>
      var s := FirstPage(addend, b);
      && n > 0 && s >= 0
      && b == MemoryBlock(addend + s * PAGE, n * PAGE)
      && s + n <= 32 * (|before| - 1)
      && Fits(before, s, n)
      && (n > 32 ==> forall t: nat :: t < s ==> !FreeRun(before, t, n))
      && Marked(before, after, s, n)
  }

  /** The outcome of a request that is served from the guard word. */
  ghost predicate StraySpec(before: seq<bv32>, addend: nat, n: nat, r: Result<MemoryBlock>, after: seq<bv32>) {
    && r.Ok? && 1 <= n <= 32
    && var s := FirstPage(addend, r.value);
    && s >= 32 * (|before| - 1) && s >= 0 && FreeRun(before, s, n)
    && r.value == MemoryBlock(addend + s * PAGE, n * PAGE)
    && Marked(before, after, s, n)
  }

  /** The outcome of `free`. */
  ghost predicate FreeSpec(before: seq<bv32>, addend: nat, b: MemoryBlock, r: Result<()>, after: seq<bv32>) {
    if b.length % PAGE != 0 then
      r == Err(InvalidLength) && after == before
    else if b.base < addend || b.base % PAGE != 0 || b.End() > MAXIMUM_ALLOCATABLE_ADDRESS then
      r == Err(InvalidAddress) && after == before
    else
      var s := FirstPage(addend, b);
      // the test only sees the low 32 bits of the length
      var tested := b.length % 0x1_0000_0000 / PAGE;
      && s + b.length / PAGE <= 32 * |before|
      && (if LooksOccupied(before, s, tested)
          then r == Ok(()) && Cleared(before, after, s, b.length / PAGE)
          else r == Err(InvalidBlock) && after == before)
  }

  /** The machine test of one word is the test for a free run inside that word. */
  lemma WordTest(words: seq<bv32>, j: nat, b: nat, n: nat)
    requires j < |words| && b < 32 && b + n <= 32
    ensures Both(words[j], Shl(MakeMask(n), b)) == 0 <==> FreeRun(words, 32 * j + b, n)
  {
    hide Bit, Shl, MakeMask, Both;
    MaskFree(words[j], n, b);
    if FreeRun(words, 32 * j + b, n) {
      forall k | b <= k < b + n ensures !Bit(words[j], k) {
        assert (32 * j + k) / 32 == j && (32 * j + k) % 32 == k;
        assert !Occupied(words, 32 * j + k);
      }
    }
    if forall k :: b <= k < b + n ==> !Bit(words[j], k) {
      forall p | 32 * j + b <= p < 32 * j + b + n ensures !Occupied(words, p) {
        assert p / 32 == j;
      }
    }
  }

  lemma GuardOccupied(words: seq<bv32>, p: nat)
    requires Guarded(words) && 32 * (|words| - 1) <= p < 32 * |words|
    ensures Occupied(words, p)
  {
    hide Bit;
    assert p / 32 == |words| - 1;
    ConstBits(p % 32);
  }

  /** A guarded bitmap has no free run that reaches into the guard word. */
  lemma GuardStops(words: seq<bv32>, s: nat, n: nat)
    requires Guarded(words) && FreeRun(words, s, n) && n > 0
    ensures s + n <= 32 * (|words| - 1)
  {
    hide Bit;
    if s + n > 32 * (|words| - 1) {
      GuardOccupied(words, s + n - 1);
      assert false;
    }
  }

  lemma GuardKept(before: seq<bv32>, after: seq<bv32>, s: nat, n: nat)
    requires |before| > 0 && s + n <= 32 * (|before| - 1)
    requires Marked(before, after, s, n) || Cleared(before, after, s, n)
    ensures after[|before| - 1] == before[|before| - 1]
  {
    hide Bit;
    var g := |before| - 1;
    forall k | 0 <= k < 32 ensures Bit(after[g], k) == Bit(before[g], k) {
      assert (32 * g + k) / 32 == g && (32 * g + k) % 32 == k;
      assert Occupied(after, 32 * g + k) == Occupied(before, 32 * g + k);
    }
    SameBits(after[g], before[g]);
  }

  /** Runs longer than a word that start in word `j` start in its free upper part, and if any of them
      is free then so is the one that starts lowest, right above the highest occupied bit. */
  lemma OneStartPerWord(words: seq<bv32>, j: nat, s0: nat, n: nat, blocked: nat)
    requires n > 32 && 32 * j <= s0 < 32 * j + 32 && j < |words|
    requires FreeRun(words, s0, 32 * j + 32 - s0)
    requires s0 > 32 * j ==> Occupied(words, s0 - 1)
    requires s0 <= blocked < s0 + n
    requires blocked < 32 * |words| ==> Occupied(words, blocked)
    ensures forall s: nat :: 32 * j <= s < 32 * j + 32 ==> !FreeRun(words, s, n)
  {
    hide Occupied;
    forall s: nat | 32 * j <= s < 32 * j + 32 ensures !FreeRun(words, s, n) {
      var p := if s < s0 then s0 - 1 else blocked;
      assert s <= p < s + n;
    }
  }

  /** What an allocator has left: whether a guard stops its searches, whether they begin in its range, and how
      many frames are free. */
  datatype Supply = Supply(guarded: bool, inRange: bool, free: nat)

  class Allocator {
    const bitmap: array<bv32>
    const entries: nat
    /** Index of the word the last small request was served from. */
    var current: nat
    const addend: nat

    ghost predicate Shaped()
      reads this, bitmap
    {
      bitmap.Length == entries + 1 && current <= entries && addend % PAGE == 0
    }

    /** What `free` does not reject lies within the bitmap. */
    ghost predicate Within(b: MemoryBlock) {
      addend <= b.base && b.End() <= MAXIMUM_ALLOCATABLE_ADDRESS ==> b.End() <= addend + entries * 32 * PAGE
    }

    /** The range begins on a page and ends below the limit of `free`. */
    ghost predicate Ready()
      reads this, bitmap
    {
      Shaped() && addend + entries * 32 * PAGE <= MAXIMUM_ALLOCATABLE_ADDRESS
    }

    /** The first frame of the range. */
    ghost function First(): nat { addend / PAGE }

    ghost function AllFrames(): set<nat> { FrameRange(First(), 32 * entries) }

    /** The frames in use. */
    ghost function InUse(): set<nat>
      reads this, bitmap
    {
      Used(bitmap[..], First())
    }

    ghost function FreeFrames(): nat
      reads this, bitmap
    {
      Unused(AllFrames(), InUse())
    }

    ghost function Stock(): Supply
      reads this, bitmap
    {
      Supply(Guarded(bitmap[..]), current < entries, FreeFrames())
    }

    /** The next `n` requests for one page stay within the range: by the guard, or because the search begins
        in the range and enough frames are left. */
    ghost predicate Supplies(n: nat)
      reads this, bitmap
    {
      Ready() && (Stock().guarded || (Stock().inRange && n <= Stock().free))
    }

    /** Since then `n` frames more were taken than given back, and none from behind the range. */
    ghost predicate Spent(was: Supply, n: int)
      reads this, bitmap
    {
      Ready() && Stock().guarded == was.guarded && (was.inRange ==> Stock().inRange) && Stock().free + n == was.free
    }

    lemma InUseWithin(f: nat)
      requires Ready() && f in InUse()
      ensures Within(MemoryBlock(f * PAGE, PAGE)) && f in AllFrames()
    {
    }

    /** The frames in use are frames of the range. */
    lemma UsedWithin(f: nat, used: set<nat>, words: seq<bv32>)
      requires |words| == entries + 1 && used == Used(words, First()) && f in used
      ensures f in AllFrames()
    {
    }

    lemma UsedInRange()
      ensures bitmap.Length == entries + 1 ==> InUse() <= AllFrames()
    {
    }

    lemma ConfinedStays(n: nat)
      requires Supplies(0) && Confined(bitmap[..], n)
      ensures !Strays(bitmap[..], current, n) && (n > 32 ==> Contained(bitmap[..], n))
    {
      hide Occupied;
      if 1 <= n <= 32 && Guarded(bitmap[..]) {
        forall s: nat | 32 * entries <= s < 32 * entries + 32 ensures !Fits(bitmap[..], s, n) {
          GuardOccupied(bitmap[..], s);
        }
      }
    }

    lemma SuppliesStays(n: nat)
      requires Supplies(n) && n > 0
      ensures !Strays(bitmap[..], current, 1)
    {
      hide Occupied;
      ghost var words := bitmap[..];
      if Guarded(words) {
        forall s: nat | 32 * entries <= s < 32 * entries + 32 ensures !Fits(words, s, 1) { GuardOccupied(words, s); }
      } else {
        var free := AllFrames() - InUse();
        assert free != {};
        var f :| f in free;
        assert !FrameUsed(words, First(), f);
        var s := f - First();
        assert Fits(words, s, 1);
        assert WordFits(words, s / 32, 1);
      }
    }

    constructor (bitmap: array<bv32>, addend: nat)
      requires bitmap.Length > 0 && addend % PAGE == 0
      ensures Shaped() && this.bitmap == bitmap && this.addend == addend
      ensures entries == bitmap.Length - 1 && current == 0
    {
      this.bitmap := bitmap;
      this.entries := bitmap.Length - 1;
      this.current := 0;
      this.addend := addend;
    }

    method IsEntryValid(index: nat, pages: U16) returns (r: Option<nat>)
      requires Shaped() && index <= entries && 1 <= pages <= 32
      ensures r.Some? ==> r.value + pages <= 32 && FreeRun(bitmap[..], 32 * index + r.value, pages)
      ensures r.Some? ==> WordFits(bitmap[..], index, pages)
      ensures r.Some? ==> forall s: nat :: 32 * index <= s < 32 * index + r.value ==> !Fits(bitmap[..], s, pages)
      ensures r.None? ==> !WordFits(bitmap[..], index, pages)
    {
      hide Bit, Shl, MakeMask, Both, Guarded, Occupied;
      var mask := MakeMask(pages);
      for i := 0 to 32 - pages + 1
        invariant forall s: nat :: 32 * index <= s < 32 * index + i ==> !FreeRun(bitmap[..], s, pages)
      {
        WordTest(bitmap[..], index, i, pages);
        if Both(bitmap[index], Shl(mask, i)) == 0 {
          assert Fits(bitmap[..], 32 * index + i, pages);
          return Some(i);
        }
      }
      return None;
    }

    method NextFreeEntry(pages: U16) returns (r: Result<(nat, nat)>)
      requires Shaped() && 1 <= pages <= 32
      ensures r.Ok? ==> r.value.1 <= entries && r.value.0 + pages <= 32
                        && FreeRun(bitmap[..], 32 * r.value.1 + r.value.0, pages)
      ensures r.Ok? ==>
          WordFits(bitmap[..], r.value.1, pages) && forall j: nat :: j < r.value.1 ==> !WordFits(bitmap[..], j, pages)
      ensures r.Ok? ==>
          forall s: nat :: 32 * r.value.1 <= s < 32 * r.value.1 + r.value.0 ==> !Fits(bitmap[..], s, pages)
      ensures r.Err? ==> r.error == Nospace && forall j: nat :: j <= entries ==> !WordFits(bitmap[..], j, pages)
    {
      hide Bit, Guarded, Occupied, WordFits, Fits;
      var inc := 0;
      while inc <= entries
        invariant inc <= entries + 1
        invariant forall j: nat :: j < inc ==> !WordFits(bitmap[..], j, pages)
      {
        var v := IsEntryValid(inc, pages);
        if v.Some? {
          return Ok((v.value, inc));
        }
        inc := inc + 1;
      }
      return Err(Nospace);
    }

    /** The number of free bits at the top of a word whose top bit is free. */
    method FreeBitsAtTop(index: nat) returns (bitsAvail: nat)
      requires Shaped() && index <= entries && !Bit(bitmap[index], 31)
      ensures 1 <= bitsAvail <= 32
      ensures forall k :: 32 - bitsAvail <= k < 32 ==> !Bit(bitmap[index], k)
      ensures bitsAvail < 32 ==> Bit(bitmap[index], 31 - bitsAvail)
    {
      hide Bit, OneBit, Both, SetMask, Guarded;
      var w := bitmap[index];
      var mask: bv32 := 0;
      bitsAvail := 32;
      var i := 32;
      forall k | 0 <= k < 32 ensures !Bit(0, k) { ConstBits(k); }
      while i != 0
        invariant 0 <= i <= 32 && bitsAvail == 32
        invariant forall k :: 0 <= k < 32 ==> (Bit(mask, k) <==> i <= k)
        invariant forall k :: i <= k < 32 ==> !Bit(w, k)
      {
        ghost var was := mask;
        mask := SetMask(mask, OneBit(i - 1));
        i := i - 1;
        forall k | 0 <= k < 32 ensures Bit(mask, k) <==> i <= k {
          OpBits(was, OneBit(i), k);
          if k == i { OneBitSelf(k); } else { OneBitOther(i, k); }
        }
        if Both(w, mask) != 0 {
          var k := NonZeroBit(Both(w, mask));
          OpBits(w, mask, k);
          assert k == i;
          bitsAvail := 32 - (i + 1);
          break;
        }
        if Bit(w, i) {
          OpBits(w, mask, i);
          ConstBits(i);
          assert false;
        }
      }
    }

    /** The one start that is tried in a word: the free bits at its top and what follows them. */
    method RunFrom(index: nat, pages: U16) returns (r: Option<nat>)
      requires Shaped() && index <= entries && pages > 32 && Contained(bitmap[..], pages)
      requires forall t: nat :: t < 32 * index ==> !FreeRun(bitmap[..], t, pages)
      ensures r.Some? ==> r.value < 32 && index < entries && FreeRun(bitmap[..], 32 * index + r.value, pages)
      ensures r.Some? ==> forall t: nat :: t < 32 * index + r.value ==> !FreeRun(bitmap[..], t, pages)
      ensures r.None? ==> forall t: nat :: 32 * index <= t < 32 * index + 32 ==> !FreeRun(bitmap[..], t, pages)
    {
      hide Bit, OneBit, Both, Shl, MakeMask, Occupied;
      ghost var words := bitmap[..];
      if Both(bitmap[index], Shl(1, 31)) != 0 {
        TopBitOccupied(words, index, pages);
        return None;
      }
      TopBitFree(words, index);
      var bitsAvail := FreeBitsAtTop(index);
      ghost var s0 := 32 * index + 32 - bitsAvail;
      TopRun(words, index, bitsAvail);
      StaysInside(words, index, s0, bitsAvail, pages);
      var full := (pages - bitsAvail) / 32;
      for i := 0 to full
        invariant FreeRun(words, s0, bitsAvail + 32 * i)
      {
        StaysInside(words, index, s0, bitsAvail + 32 * i, pages);
        if bitmap[index + 1 + i] != 0 {
          OccupiedWord(words, index, s0, pages, index + 1 + i);
          return None;
        }
        ExtendRun(words, s0, bitsAvail + 32 * i, index + 1 + i);
      }
      StaysInside(words, index, s0, bitsAvail + 32 * full, pages);
      var rem := (pages - bitsAvail) % 32;
      ShlZero(MakeMask(rem));
      WordTest(words, index + 1 + full, 0, rem);
      if Both(bitmap[index + 1 + full], MakeMask(rem)) != 0 {
        OccupiedTail(words, index, s0, pages, index + 1 + full, rem);
        return None;
      }
      return Some(32 - bitsAvail);
    }

    /** Finds the lowest run of more than 32 free pages, trying one start per word. */
    method NextFreeEntryEx(pages: U16) returns (r: Result<(nat, nat)>)
      requires Shaped() && pages > 32 && Contained(bitmap[..], pages)
      ensures r.Ok? ==>
                var s := 32 * r.value.0 + r.value.1;
                && r.value.0 < entries && r.value.1 < 32
                && FreeRun(bitmap[..], s, pages)
                && forall t: nat :: t < s ==> !FreeRun(bitmap[..], t, pages)
      ensures r.Err? ==> r.error == Nospace && forall t: nat :: !FreeRun(bitmap[..], t, pages)
    {
      hide Occupied, Contained, Guarded;
      var inc := 0;
      while inc <= entries
        invariant inc <= entries + 1
        invariant forall t: nat :: t < 32 * inc ==> !FreeRun(bitmap[..], t, pages)
      {
        var bit := RunFrom(inc, pages);
        if bit.Some? {
          return Ok((inc, bit.value));
        }
        inc := inc + 1;
      }
      return Err(Nospace);
    }

    /** Marks a run of more than 32 pages: the top of its first word, whole words, and the bottom of the last. */
    method TakeRun(offset: nat, bit: nat, pages: U16)
      requires Shaped() && pages > 32 && bit < 32 && 32 * offset + bit + pages <= 32 * entries
      modifies bitmap
      ensures bitmap[entries] == old(bitmap[entries])
      ensures Marked(old(bitmap[..]), bitmap[..], 32 * offset + bit, pages)
    {
      hide Bit, OneBit, Both, Shl, MakeMask, SetMask, Occupied, WordMarked, Marked;
      ghost var s := 32 * offset + bit;
      ghost var before := bitmap[..];
      MaskedWord(bitmap[offset], 32 - bit, bit, offset, s, pages);
      bitmap[offset] := SetMask(bitmap[offset], Shl(MakeMask(32 - bit), bit));
      var full := (pages - (32 - bit)) / 32;
      for i := 0 to full
        invariant forall j :: 0 <= j < bitmap.Length && !(offset <= j <= offset + i) ==> bitmap[j] == before[j]
        invariant forall j :: offset <= j <= offset + i ==> WordMarked(before[j], bitmap[j], j, s, pages)
      {
        FullWordMarked(before[offset + 1 + i], offset + 1 + i, s, pages);
        bitmap[offset + 1 + i] := ALL_ONES;
      }
      var rem := (pages - (32 - bit)) % 32;
      if rem != 0 {
        var end := offset + 1 + full;
        ShlZero(MakeMask(rem));
        MaskedWord(bitmap[end], rem, 0, end, s, pages);
        bitmap[end] := SetMask(bitmap[end], MakeMask(rem));
      }
      forall j | 0 <= j < bitmap.Length
        ensures WordMarked(before[j], bitmap[j], j, s, pages)
      {
        if j < offset || s + pages <= 32 * j { UntouchedWord(before[j], j, s, pages); }
      }
      MarkedByWords(before, bitmap[..], s, pages);
    }

    method AllocEx(pages: U16) returns (r: Result<MemoryBlock>)
      requires Shaped() && pages > 32 && Contained(bitmap[..], pages)
      modifies bitmap
      ensures bitmap[entries] == old(bitmap[entries])
      ensures AllocSpec(old(bitmap[..]), addend, pages, r, bitmap[..])
    {
      hide Occupied, Marked, FreeRun, Contained, Guarded;
      var found := NextFreeEntryEx(pages);
      if found.Err? {
        forall s: nat ensures !Fits(bitmap[..], s, pages) { assert !FreeRun(bitmap[..], s, pages); }
        return Err(found.error);
      }
      var (offset, bit) := found.value;
      LowestStays(bitmap[..], 32 * offset + bit, pages);
      TakeRun(offset, bit, pages);
      var base := addend + offset * 0x20000 + bit * 0x1000;
      assert FirstPage(addend, MemoryBlock(base, pages * PAGE)) == 32 * offset + bit;
      return Ok(MemoryBlock(base, pages * PAGE));
    }

    /** Marks the pages of a small request and gives their address. */
    method TakeInWord(pages: U16, bitOff: nat) returns (b: MemoryBlock)
      requires Shaped() && 1 <= pages && bitOff + pages <= 32
      modifies bitmap
      ensures var s := 32 * current + bitOff;
              && FirstPage(addend, b) == s && b == MemoryBlock(addend + s * PAGE, pages * PAGE)
              && Marked(old(bitmap[..]), bitmap[..], s, pages)
      ensures current < entries ==> bitmap[entries] == old(bitmap[entries])
    {
      hide Bit, OneBit, Both, Shl, MakeMask, SetMask, Occupied, Marked;
      ghost var before := bitmap[..];
      bitmap[current] := SetMask(bitmap[current], Shl(MakeMask(pages), bitOff));
      OneWordMarked(before, bitmap[..], current, bitOff, pages);
      return MemoryBlock(addend + current * 32 * 0x1000 + bitOff * 0x1000, pages * 0x1000);
    }

    /** Requests of up to 32 pages from an unguarded bitmap can be served from the guard word, that is from
        behind the range; `Strays` says exactly when. */
    method Alloc(pages: U16) returns (r: Result<MemoryBlock>)
      requires Shaped() && (pages > 32 ==> Contained(bitmap[..], pages))
      modifies this`current, bitmap
      ensures Shaped()
      ensures pages <= 32 && r.Ok? ==>
                var s := FirstPage(addend, r.value);
                s >= 0 && current == s / 32 && Placed(old(bitmap[..]), old(current), s, pages)
      ensures pages > 32 || r.Err? ==> current == old(current)
      ensures Strays(old(bitmap[..]), old(current), pages) ==>
                StraySpec(old(bitmap[..]), addend, pages, r, bitmap[..])
      ensures !Strays(old(bitmap[..]), old(current), pages) ==>
                AllocSpec(old(bitmap[..]), addend, pages, r, bitmap[..]) && bitmap[entries] == old(bitmap[entries])
      ensures if pages == 0 then r == Err(AllocationError) else r.Ok? || r == Err(Nospace)
    {
      hide Bit, OneBit, Both, Shl, MakeMask, SetMask, Occupied, Marked, FreeRun;
      if pages == 0 {
        return Err(AllocationError);
      }
      if 32 >= pages {
        var bitOff;
        var v := IsEntryValid(current, pages);
        match v {
          case Some(b) => bitOff := b;
          case None =>
            var next := NextFreeEntry(pages);
            match next {
              case Ok((b, entry)) =>
                bitOff := b;
                current := entry;
              case Err(e) =>
                NoneFits(bitmap[..], pages);
                return Err(e);
            }
        }
        var b := TakeInWord(pages, bitOff);
        assert (32 * current + bitOff) / 32 == current;
        return Ok(b);
      } else {
        r := AllocEx(pages);
      }
    }

    method Free(memblock: MemoryBlock) returns (r: Result<()>)
      requires Shaped() && Within(memblock)
      modifies bitmap
      ensures Shaped() && bitmap[entries] == old(bitmap[entries])
      ensures FreeSpec(old(bitmap[..]), addend, memblock, r, bitmap[..])
      ensures r == Err(InvalidLength) <==> memblock.length % 0x1000 != 0
      ensures r == Err(InvalidAddress)
          <==> && memblock.length % 0x1000 == 0
               && (|| memblock.base < addend || memblock.base % 0x1000 != 0
                   || memblock.base + memblock.length > 0x8_0000_0000)
      ensures r.Ok? || r.error in {InvalidLength, InvalidAddress, InvalidBlock}
    {
      hide Bit, OneBit, Both, Shl, MakeMask, SetMask, Occupied, Cleared, LooksOccupied, FirstWidth;
      if memblock.length % 0x1000 != 0 {
        return Err(InvalidLength);
      }
      if memblock.base < addend || memblock.base % 0x1000 != 0 || memblock.End() > MAXIMUM_ALLOCATABLE_ADDRESS {
        return Err(InvalidAddress);
      }
      ghost var before := bitmap[..];
      var entry := FromAddress(memblock.base - addend);
      ghost var s := FirstPage(addend, memblock);
      assert s + memblock.length / PAGE <= 32 * entries;
      var occupied := IsOccupied(bitmap, entry, memblock.length % 0x1_0000_0000 / 0x1000);
      if !occupied {
        return Err(InvalidBlock);
      }
      SetZero(bitmap, entry, memblock.length / 0x1000);
      GuardKept(before, bitmap[..], s, memblock.length / PAGE);
      return Ok(());
    }
  }

  /** Without room in any word there is no place anywhere. */
  lemma NoneFits(words: seq<bv32>, n: nat)
    requires 1 <= n <= 32 && forall j: nat :: j < |words| ==> !WordFits(words, j, n)
    ensures forall s: nat :: !Fits(words, s, n)
  {
    hide Occupied;
    forall s: nat | s < 32 * |words| ensures !Fits(words, s, n) {
      assert !WordFits(words, s / 32, n);
    }
  }

  /** An empty guard word always has room, so a small request leaves the range as soon as no word in it has. */
  lemma EmptyGuardStrays(words: seq<bv32>, current: nat, n: nat)
    requires |words| > 0 && words[|words| - 1] == 0 && 1 <= n <= 32
    ensures Strays(words, current, n) <==>
        current == |words| - 1 || forall j: nat :: j < |words| - 1 ==> !WordFits(words, j, n)
  {
    hide Bit;
    var j := |words| - 1;
    forall p | 32 * j <= p < 32 * j + n ensures !Occupied(words, p) { ConstBits(p % 32); }
    assert Fits(words, 32 * j, n);
  }

  /** A sub-allocator of 32 pages that are all in use hands out a page behind its range. */
  method FullAllocatorStrays() returns (r: Result<MemoryBlock>)
    ensures r == Ok(MemoryBlock(32 * PAGE, PAGE))
  {
    var bitmap := new bv32[2];
    bitmap[0], bitmap[1] := ALL_ONES, 0;
    var a := new Allocator(bitmap, 0);
    ghost var words := bitmap[..];
    hide Bit;
    forall s: nat | s < 32 ensures !Fits(words, s, 1) {
      ConstBits(s);
      assert Occupied(words, s);
    }
    EmptyGuardStrays(words, 0, 1);
    forall p | 32 <= p < 33 ensures !Occupied(words, p) { ConstBits(p % 32); }
    assert Fits(words, 32, 1);
    r := a.Alloc(1);
  }

  /** While no lower run is free, the run being looked at ends within the range: a free run further on that lies
      within it is not overtaken. */
  lemma StaysInside(words: seq<bv32>, j: nat, s0: nat, k: nat, n: nat)
    requires n > 32 && Contained(words, n) && 0 < k <= n && FreeRun(words, s0, k) && 32 * j <= s0 < 32 * j + 32
    requires s0 > 32 * j ==> Occupied(words, s0 - 1)
    requires forall t: nat :: t < 32 * j ==> !FreeRun(words, t, n)
    ensures s0 + k <= 32 * (|words| - 1)
  {
    hide Occupied;
    if Guarded(words) {
      GuardStops(words, s0, k);
    } else {
      var t: nat :| FreeRun(words, t, n) && t + n <= 32 * (|words| - 1);
      assert t >= 32 * j;
    }
  }

  lemma LowestStays(words: seq<bv32>, s: nat, n: nat)
    requires n > 32 && Contained(words, n) && FreeRun(words, s, n) && forall t: nat :: t < s ==> !FreeRun(words, t, n)
    ensures s + n <= 32 * (|words| - 1)
  {
    if Guarded(words) { GuardStops(words, s, n); }
  }

  lemma OneWordMarked(before: seq<bv32>, after: seq<bv32>, j: nat, b: nat, n: nat)
    requires j < |before| && b < 32 && b + n <= 32
    requires after == before[j := SetMask(before[j], Shl(MakeMask(n), b))]
    ensures Marked(before, after, 32 * j + b, n)
  {
    hide Bit, Shl, MakeMask, SetMask, WordMarked, Marked;
    MaskedWord(before[j], n, b, j, 32 * j + b, n);
    forall k | 0 <= k < |before| ensures WordMarked(before[k], after[k], k, 32 * j + b, n) {
      if k != j { UntouchedWord(before[k], k, 32 * j + b, n); }
    }
    MarkedByWords(before, after, 32 * j + b, n);
  }

  lemma TopBitFree(words: seq<bv32>, j: nat)
    requires j < |words|
    ensures Both(words[j], Shl(1, 31)) == 0 <==> !Bit(words[j], 31)
  {
  }

  lemma TopRun(words: seq<bv32>, j: nat, n: nat)
    requires j < |words| && n <= 32
    requires forall k :: 32 - n <= k < 32 ==> !Bit(words[j], k)
    ensures FreeRun(words, 32 * j + 32 - n, n)
    ensures n < 32 && Bit(words[j], 31 - n) ==> Occupied(words, 32 * j + 31 - n)
  {
    hide Bit;
    forall p | 32 * j + 32 - n <= p < 32 * j + 32 ensures !Occupied(words, p) {
      assert p / 32 == j;
    }
    if n < 32 {
      assert (32 * j + 31 - n) / 32 == j && (32 * j + 31 - n) % 32 == 31 - n;
    }
  }

  lemma ExtendRun(words: seq<bv32>, s: nat, n: nat, j: nat)
    requires FreeRun(words, s, n) && s + n == 32 * j && j < |words| && words[j] == 0
    ensures FreeRun(words, s, n + 32)
  {
    hide Bit;
    forall p | s <= p < s + n + 32 ensures !Occupied(words, p) {
      if p >= s + n {
        assert p / 32 == j;
        ConstBits(p % 32);
      }
    }
  }

  lemma TopBitOccupied(words: seq<bv32>, j: nat, n: nat)
    requires j < |words| && n > 32 && Both(words[j], Shl(1, 31)) != 0
    ensures forall s: nat :: 32 * j <= s < 32 * j + 32 ==> !FreeRun(words, s, n)
  {
    hide Bit, Both, Shl;
    TopBitFree(words, j);
    assert (32 * j + 31) / 32 == j && (32 * j + 31) % 32 == 31;
    assert Occupied(words, 32 * j + 31);
  }

  lemma OccupiedWord(words: seq<bv32>, j: nat, s0: nat, n: nat, m: nat)
    requires n > 32 && 32 * j <= s0 < 32 * j + 32 && j < |words|
    requires FreeRun(words, s0, 32 * j + 32 - s0)
    requires s0 > 32 * j ==> Occupied(words, s0 - 1)
    requires j < m < |words| && 32 * m + 32 <= s0 + n && words[m] != 0
    ensures forall s: nat :: 32 * j <= s < 32 * j + 32 ==> !FreeRun(words, s, n)
  {
    hide Bit;
    var k := NonZeroBit(words[m]);
    assert (32 * m + k) / 32 == m && (32 * m + k) % 32 == k;
    OneStartPerWord(words, j, s0, n, 32 * m + k);
  }

  lemma OccupiedTail(words: seq<bv32>, j: nat, s0: nat, n: nat, m: nat, rem: nat)
    requires n > 32 && 32 * j <= s0 < 32 * j + 32 && j < |words|
    requires FreeRun(words, s0, 32 * j + 32 - s0)
    requires s0 > 32 * j ==> Occupied(words, s0 - 1)
    requires j < m < |words| && rem < 32 && 32 * m + rem == s0 + n && !FreeRun(words, 32 * m, rem)
    ensures forall s: nat :: 32 * j <= s < 32 * j + 32 ==> !FreeRun(words, s, n)
  {
    hide Bit, Occupied;
    var p :| 32 * m <= p < 32 * m + rem && Occupied(words, p);
    OneStartPerWord(words, j, s0, n, p);
  }

  // ----- the same outcomes as sets of frames

  predicate IsFrame(first: nat, f: nat) { first <= f }

  ghost function FrameRange(first: nat, n: nat): set<nat> { set f | first <= f < first + n && IsFrame(first, f) }

  lemma AllocOneFrame(before: seq<bv32>, addend: nat, r: Result<MemoryBlock>, after: seq<bv32>)
    requires |before| > 0 && addend % PAGE == 0 && AllocSpec(before, addend, 1, r, after)
    ensures var first := addend / PAGE; var all := FrameRange(first, 32 * (|before| - 1));
            && (r.Err? ==> r.error == Nospace && Used(before, first) == all && after == before)
            && (r.Ok? ==> var f := r.value.base / PAGE;
                          && r.value == MemoryBlock(f * PAGE, PAGE)
                          && f in all && f !in Used(before, first) && Used(after, first) == Used(before, first) + {f})
  {
    hide Occupied;
    var first := addend / PAGE;
    match r
    case Err(_) =>
      forall f | f in FrameRange(first, 32 * (|before| - 1)) ensures f in Used(before, first) {
        assert !Fits(before, f - first, 1);
        assert !FreeRun(before, f - first, 1);
      }
    case Ok(b) =>
      var s := FirstPage(addend, b);
      assert !Occupied(before, s);
      assert b.base / PAGE == first + s;
      forall f | f in FrameRange(first, 32 * (|before| - 1))
        ensures f in Used(after, first) <==> f in Used(before, first) || f == first + s {
        assert Occupied(after, f - first) == (Occupied(before, f - first) || f - first == s);
      }
  }

  lemma OneFewer(all: set<nat>, used: set<nat>, f: nat)
    requires f in all && f !in used
    ensures Unused(all, used + {f}) + 1 == Unused(all, used)
  {
    assert all - used == (all - (used + {f})) + {f};
  }

  lemma OneMore(all: set<nat>, used: set<nat>, f: nat)
    requires f in all && f in used
    ensures Unused(all, used - {f}) == Unused(all, used) + 1
  {
    assert all - (used - {f}) == (all - used) + {f};
  }

  /** Giving one frame back succeeds exactly when it is in use. */
  lemma FreeOneFrame(before: seq<bv32>, addend: nat, f: nat, r: Result<()>, after: seq<bv32>)
    requires |before| > 0 && addend % PAGE == 0
    requires addend <= f * PAGE && f * PAGE + PAGE <= MAXIMUM_ALLOCATABLE_ADDRESS ==>
        f * PAGE + PAGE <= addend + 32 * (|before| - 1) * PAGE
    requires addend + 32 * (|before| - 1) * PAGE <= MAXIMUM_ALLOCATABLE_ADDRESS
    requires FreeSpec(before, addend, MemoryBlock(f * PAGE, PAGE), r, after)
    ensures var first := addend / PAGE;
            && (r.Ok? <==> f in Used(before, first))
            && (r.Ok? ==> Used(after, first) == Used(before, first) - {f})
            && (r.Err? ==> after == before)
  {
    hide Occupied, LooksOccupied;
    var first := addend / PAGE;
    if addend <= f * PAGE && f * PAGE + PAGE <= MAXIMUM_ALLOCATABLE_ADDRESS {
      assert FirstPage(addend, MemoryBlock(f * PAGE, PAGE)) == f - first;
      ShortRunsTestedExactly(before, f - first, 1);
      assert OccupiedRun(before, f - first, 1) <==> Occupied(before, f - first);
    }
  }
}
