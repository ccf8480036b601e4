/** The page bitmap: one bit per 4 KiB page, 32 pages a word (allocator.rs, `BitmapEntry`). */
module Bitmap {
  import opened Bits

  /** Page `p` is marked as occupied. */
  predicate Occupied(words: seq<bv32>, p: nat)
    requires p < 32 * |words|
  {
    Bit(words[p / 32], p % 32)
  }

  /** All of the `n` pages from `s` on are inside the bitmap and free. */
  ghost predicate FreeRun(words: seq<bv32>, s: nat, n: nat) {
    s + n <= 32 * |words| && forall p :: s <= p < s + n ==> !Occupied(words, p)
  }

  ghost predicate OccupiedRun(words: seq<bv32>, s: nat, n: nat) {
    s + n <= 32 * |words| && forall p :: s <= p < s + n ==> Occupied(words, p)
  }

  /** `after` is `before` with the `n` pages from `s` on set, and no other page changed. */
  ghost predicate Marked(before: seq<bv32>, after: seq<bv32>, s: nat, n: nat) {
    && |after| == |before|
    && forall p :: 0 <= p < 32 * |before| ==> (Occupied(after, p) <==> Occupied(before, p) || s <= p < s + n)
  }

  /** `after` is `before` with the `n` pages from `s` on cleared, and no other page changed. */
  ghost predicate Cleared(before: seq<bv32>, after: seq<bv32>, s: nat, n: nat) {
    && |after| == |before|
    && forall p :: 0 <= p < 32 * |before| ==> (Occupied(after, p) <==> Occupied(before, p) && !(s <= p < s + n))
  }

  /** What one word contributes to `Marked` and `Cleared`. */
  ghost predicate WordMarked(before: bv32, after: bv32, j: nat, s: nat, n: nat) {
    forall k :: 0 <= k < 32 ==> (Bit(after, k) <==> Bit(before, k) || s <= 32 * j + k < s + n)
  }

  ghost predicate WordCleared(before: bv32, after: bv32, j: nat, s: nat, n: nat) {
    forall k :: 0 <= k < 32 ==> (Bit(after, k) <==> Bit(before, k) && !(s <= 32 * j + k < s + n))
  }

  lemma MarkedByWords(before: seq<bv32>, after: seq<bv32>, s: nat, n: nat)
    requires |after| == |before|
    requires forall j :: 0 <= j < |before| ==> WordMarked(before[j], after[j], j, s, n)
    ensures Marked(before, after, s, n)
  {
    hide Bit;
    forall p | 0 <= p < 32 * |before|
      ensures Occupied(after, p) <==> Occupied(before, p) || s <= p < s + n
    {
      assert p == 32 * (p / 32) + p % 32;
      assert WordMarked(before[p / 32], after[p / 32], p / 32, s, n);
    }
  }

  lemma ClearedByWords(before: seq<bv32>, after: seq<bv32>, s: nat, n: nat)
    requires |after| == |before|
    requires forall j :: 0 <= j < |before| ==> WordCleared(before[j], after[j], j, s, n)
    ensures Cleared(before, after, s, n)
  {
    hide Bit;
    forall p | 0 <= p < 32 * |before|
      ensures Occupied(after, p) <==> Occupied(before, p) && !(s <= p < s + n)
    {
      assert p == 32 * (p / 32) + p % 32;
      assert WordCleared(before[p / 32], after[p / 32], p / 32, s, n);
    }
  }

  /** Two bitmaps with the same occupied pages are equal word for word. */
  lemma SamePages(a: seq<bv32>, b: seq<bv32>)
    requires |a| == |b|
    requires forall p :: 0 <= p < 32 * |a| ==> Occupied(a, p) == Occupied(b, p)
    ensures a == b
  {
    hide Bit;
    forall j | 0 <= j < |a| ensures a[j] == b[j] {
      forall k | 0 <= k < 32 ensures Bit(a[j], k) == Bit(b[j], k) {
        assert (32 * j + k) / 32 == j && (32 * j + k) % 32 == k;
        assert Occupied(a, 32 * j + k) == Occupied(b, 32 * j + k);
      }
      SameBits(a[j], b[j]);
    }
  }

  /** Setting a run of free pages and clearing it again restores the bitmap bit for bit. */
  lemma MarkThenClear(w0: seq<bv32>, w1: seq<bv32>, w2: seq<bv32>, s: nat, n: nat)
    requires FreeRun(w0, s, n) && Marked(w0, w1, s, n) && Cleared(w1, w2, s, n)
    ensures w2 == w0
  {
    hide Occupied;
    forall p | 0 <= p < 32 * |w0| ensures Occupied(w2, p) == Occupied(w0, p) {
      assert Occupied(w1, p) <==> Occupied(w0, p) || s <= p < s + n;
    }
    SamePages(w2, w0);
  }

  // ----- BitmapEntry

  datatype BitmapEntry = BitmapEntry(offset: nat, bitOffset: nat)

  function FromAddress(address: nat): (e: BitmapEntry)
    ensures e.bitOffset < 32 && 32 * e.offset + e.bitOffset == address / 0x1000
  {
    var page := address / 0x1000;
    BitmapEntry(page / 32, page % 32)
  }

  function FirstWidth(bitOffset: nat, pages: nat): (w: nat)
    requires bitOffset < 32
    ensures w <= pages && bitOffset + w <= 32
    ensures w == pages || bitOffset + w == 32
  {
    if 32 - bitOffset > pages then pages else 32 - bitOffset
  }

  /** What `is_occupied` looks at: the first and the last partial word must be full, but of a whole
      word in between only that it is not empty. */
  ghost predicate LooksOccupied(words: seq<bv32>, s: nat, n: nat)
    requires s + n <= 32 * |words|
  {
    var first := FirstWidth(s % 32, n);
    var full := (n - first) / 32;
    && (forall p :: s <= p < s + first ==> Occupied(words, p))
    && (forall j :: s / 32 < j <= s / 32 + full ==> words[j] != 0)
    && (forall p :: s + first + 32 * full <= p < s + n ==> Occupied(words, p))
  }

  lemma OccupiedRunLooksOccupied(words: seq<bv32>, s: nat, n: nat)
    requires OccupiedRun(words, s, n)
    ensures LooksOccupied(words, s, n)
  {
    hide Bit;
    var first := FirstWidth(s % 32, n);
    var full := (n - first) / 32;
    forall j | s / 32 < j <= s / 32 + full ensures words[j] != 0 {
      var p := 32 * j;
      assert s <= p < s + n;
      assert Occupied(words, p);
      ConstBits(0);
    }
  }

  /** Runs without a whole word in between are tested exactly. */
  lemma ShortRunsTestedExactly(words: seq<bv32>, s: nat, n: nat)
    requires s + n <= 32 * |words| && n < FirstWidth(s % 32, n) + 32
    ensures LooksOccupied(words, s, n) <==> OccupiedRun(words, s, n)
  {
    if LooksOccupied(words, s, n) {
      var first := FirstWidth(s % 32, n);
      assert (n - first) / 32 == 0;
      forall p | s <= p < s + n ensures Occupied(words, p) {
        if p < s + first { } else { }
      }
    }
    if OccupiedRun(words, s, n) { OccupiedRunLooksOccupied(words, s, n); }
  }

  /** All pages in use but 31 of those in the word after the one that page `s` is in. */
  function AlmostFull(s: nat, count: nat): seq<bv32> {
    seq(count, j => if j == s / 32 + 1 then OneBit(0) else ALL_ONES)
  }

  /** Every run with a whole word in between passes the test on some bitmap on which it is not fully in use. */
  lemma LongRunsTestedLoosely(s: nat, n: nat)
    requires n >= FirstWidth(s % 32, n) + 32
    ensures var words := AlmostFull(s, s / 32 + n / 32 + 2);
            s + n <= 32 * |words| && LooksOccupied(words, s, n) && !OccupiedRun(words, s, n)
  {
    hide Bit, OneBit;
    var words := AlmostFull(s, s / 32 + n / 32 + 2);
    var first := FirstWidth(s % 32, n);
    forall p | 0 <= p < 32 * |words| && p / 32 != s / 32 + 1 ensures Occupied(words, p) { ConstBits(p % 32); }
    NotZero();
    var p := 32 * (s / 32 + 1) + 1;
    OneBitOther(0, 1);
    assert p / 32 == s / 32 + 1 && p % 32 == 1 && !Occupied(words, p);
    assert s <= p < s + n;
    assert forall q :: s <= q < s + first ==> q / 32 == s / 32;
    assert (n - first) / 32 >= 1;
    assert forall q :: s + first + 32 * ((n - first) / 32) <= q < s + n ==> q / 32 != s / 32 + 1;
  }

  lemma NotZero()
    ensures OneBit(0) != 0
  {
  }

  /** The test is exact on every bitmap exactly for the runs without a whole word in between. */
  lemma TestedExactly(s: nat, n: nat)
    ensures (forall words :: s + n <= 32 * |words| ==> (LooksOccupied(words, s, n) <==> OccupiedRun(words, s, n)))
            <==> n < FirstWidth(s % 32, n) + 32
  {
    hide LooksOccupied, OccupiedRun;
    if n < FirstWidth(s % 32, n) + 32 {
      forall words | s + n <= 32 * |words| ensures LooksOccupied(words, s, n) <==> OccupiedRun(words, s, n) {
        ShortRunsTestedExactly(words, s, n);
      }
    } else {
      LongRunsTestedLoosely(s, n);
    }
  }

  method IsOccupied(bitmap: array<bv32>, e: BitmapEntry, pages: nat) returns (r: bool)
    requires e.bitOffset < 32 && e.offset < bitmap.Length
    requires 32 * e.offset + e.bitOffset + pages <= 32 * bitmap.Length
    ensures r <==> LooksOccupied(bitmap[..], 32 * e.offset + e.bitOffset, pages)
  {
    hide Bit, Shl, MakeMask, Both;
    ghost var s := 32 * e.offset + e.bitOffset;
    ghost var words := bitmap[..];
    var first := FirstWidth(e.bitOffset, pages);
    assert s % 32 == e.bitOffset && s / 32 == e.offset;
    var beginMask := Shl(MakeMask(first), e.bitOffset);
    FirstPart(words, s, first);
    if Both(bitmap[e.offset], beginMask) != beginMask {
      return false;
    }
    var full := (pages - first) / 32;
    for i := 0 to full
      invariant forall j :: e.offset < j <= e.offset + i ==> words[j] != 0
    {
      if bitmap[e.offset + i + 1] == 0 {
        return false;
      }
    }
    var rem := (pages - first) % 32;
    if rem != 0 {
      var mask := MakeMask(rem);
      TailPart(words, e.offset + 1 + full, rem);
      if Both(bitmap[e.offset + 1 + full], mask) != mask {
        return false;
      }
    }
    return true;
  }

  lemma FirstPart(words: seq<bv32>, s: nat, n: nat)
    requires s < 32 * |words| && s % 32 + n <= 32
    ensures Both(words[s / 32], Shl(MakeMask(n), s % 32)) == Shl(MakeMask(n), s % 32)
       <==> forall p :: s <= p < s + n ==> Occupied(words, p)
  {
    hide Bit, Shl, MakeMask, Both;
    MaskFull(words[s / 32], n, s % 32);
    if forall k :: s % 32 <= k < s % 32 + n ==> Bit(words[s / 32], k) {
      forall p | s <= p < s + n ensures Occupied(words, p) {
        assert p / 32 == s / 32;
      }
    }
    if forall p :: s <= p < s + n ==> Occupied(words, p) {
      forall k | s % 32 <= k < s % 32 + n ensures Bit(words[s / 32], k) {
        var p := 32 * (s / 32) + k;
        assert p / 32 == s / 32 && p % 32 == k;
        assert Occupied(words, p);
      }
    }
  }

  lemma TailPart(words: seq<bv32>, j: nat, n: nat)
    requires j < |words| && n <= 32
    ensures Both(words[j], MakeMask(n)) == MakeMask(n)
       <==> forall p :: 32 * j <= p < 32 * j + n ==> Occupied(words, p)
  {
    hide Bit, Shl, MakeMask, Both;
    ShlZero(MakeMask(n));
    FirstPart(words, 32 * j, n);
  }

  lemma MaskedWord(w: bv32, width: nat, b: nat, j: nat, s: nat, n: nat)
    requires b < 32 && b + width <= 32
    requires 32 * j + b == s || (b == 0 && s <= 32 * j)
    requires 32 * j + b + width == s + n || (b + width == 32 && 32 * j + 32 <= s + n)
    ensures WordMarked(w, SetMask(w, Shl(MakeMask(width), b)), j, s, n)
    ensures WordCleared(w, ClearMask(w, Shl(MakeMask(width), b)), j, s, n)
  {
    hide Bit, Shl, MakeMask, SetMask, ClearMask;
    MaskUpdate(w, width, b);
  }

  lemma UntouchedWord(w: bv32, j: nat, s: nat, n: nat)
    requires 32 * j + 32 <= s || s + n <= 32 * j
    ensures WordMarked(w, w, j, s, n)
    ensures WordCleared(w, w, j, s, n)
  {
    hide Bit;
  }

  method SetOne(bitmap: array<bv32>, e: BitmapEntry, pages: nat)
    requires e.bitOffset < 32 && e.offset < bitmap.Length
    requires 32 * e.offset + e.bitOffset + pages <= 32 * bitmap.Length
    modifies bitmap
    ensures Marked(old(bitmap[..]), bitmap[..], 32 * e.offset + e.bitOffset, pages)
  {
    hide *;
    ghost var s := 32 * e.offset + e.bitOffset;
    ghost var before := bitmap[..];
    var width := FirstWidth(e.bitOffset, pages);
    MaskedWord(bitmap[e.offset], width, e.bitOffset, e.offset, s, pages);
    bitmap[e.offset] := SetMask(bitmap[e.offset], Shl(MakeMask(width), e.bitOffset));
    var after := (pages - width) / 32;
    for i := 0 to after
      invariant forall j :: 0 <= j < bitmap.Length && !(e.offset <= j <= e.offset + i) ==> bitmap[j] == before[j]
      invariant forall j :: e.offset <= j <= e.offset + i ==> WordMarked(before[j], bitmap[j], j, s, pages)
    {
      FullWordMarked(before[e.offset + 1 + i], e.offset + 1 + i, s, pages);
      bitmap[e.offset + 1 + i] := ALL_ONES;
    }
    var rem := (pages - width) % 32;
    var end := e.offset + 1 + after;
    if rem != 0 {
      ShlZero(MakeMask(rem));
      MaskedWord(bitmap[end], rem, 0, end, s, pages);
      bitmap[end] := SetMask(bitmap[end], MakeMask(rem));
    }
    forall j | 0 <= j < bitmap.Length
      ensures WordMarked(before[j], bitmap[j], j, s, pages)
    {
      if j < e.offset || s + pages <= 32 * j { UntouchedWord(before[j], j, s, pages); }
    }
    MarkedByWords(before, bitmap[..], s, pages);
  }

  lemma FullWordMarked(w: bv32, j: nat, s: nat, n: nat)
    requires s <= 32 * j && 32 * j + 32 <= s + n
    ensures WordMarked(w, ALL_ONES, j, s, n)
    ensures WordCleared(w, 0, j, s, n)
  {
    hide Bit;
    forall k | 0 <= k < 32 ensures Bit(ALL_ONES, k) && !Bit(0, k) { ConstBits(k); }
  }

  method SetZero(bitmap: array<bv32>, e: BitmapEntry, pages: nat)
    requires e.bitOffset < 32 && e.offset < bitmap.Length
    requires 32 * e.offset + e.bitOffset + pages <= 32 * bitmap.Length
    modifies bitmap
    ensures Cleared(old(bitmap[..]), bitmap[..], 32 * e.offset + e.bitOffset, pages)
  {
    hide *;
    ghost var s := 32 * e.offset + e.bitOffset;
    ghost var before := bitmap[..];
    var width := FirstWidth(e.bitOffset, pages);
    MaskedWord(bitmap[e.offset], width, e.bitOffset, e.offset, s, pages);
    bitmap[e.offset] := ClearMask(bitmap[e.offset], Shl(MakeMask(width), e.bitOffset));
    var after := (pages - width) / 32;
    for i := 0 to after
      invariant forall j :: 0 <= j < bitmap.Length && !(e.offset <= j <= e.offset + i) ==> bitmap[j] == before[j]
      invariant forall j :: e.offset <= j <= e.offset + i ==> WordCleared(before[j], bitmap[j], j, s, pages)
    {
      FullWordMarked(before[e.offset + 1 + i], e.offset + 1 + i, s, pages);
      bitmap[e.offset + 1 + i] := 0;
    }
    var rem := (pages - width) % 32;
    var end := e.offset + 1 + after;
    if rem != 0 {
      ShlZero(MakeMask(rem));
      MaskedWord(bitmap[end], rem, 0, end, s, pages);
      bitmap[end] := ClearMask(bitmap[end], MakeMask(rem));
    }
    forall j | 0 <= j < bitmap.Length
      ensures WordCleared(before[j], bitmap[j], j, s, pages)
    {
      if j < e.offset || s + pages <= 32 * j { UntouchedWord(before[j], j, s, pages); }
    }
    ClearedByWords(before, bitmap[..], s, pages);
  }
}
