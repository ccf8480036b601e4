/** Single bits of a 32-bit bitmap word, and the masks the allocator builds.

A word is a `bv32` and every operation on it is the machine operation of the source. The lemmas
turn those operations into statements about single bits; the other modules use only the lemmas. */
module Bits {

  const ALL_ONES: bv32 := 0xFFFF_FFFF

  function OneBit(k: nat): bv32
    requires k < 32
  {
    (1 as bv32) << k
  }

  predicate Bit(w: bv32, k: nat)
    requires k < 32
  {
    w & OneBit(k) != 0
  }

  function Shl(w: bv32, b: nat): bv32
    requires b <= 32
  {
    w << b
  }

  /** The shift is done in 64 bits, so that a width of 32 gives the full mask. */
  function MakeMask(n: nat): bv32
    requires n <= 32
  {
    ((((1 as bv64) << n) - 1) & 0xFFFF_FFFF) as bv32
  }

  function Both(x: bv32, m: bv32): bv32 { x & m }

  function SetMask(x: bv32, m: bv32): bv32 { x | m }

  function ClearMask(x: bv32, m: bv32): bv32 { x & !m }

  // ----- one machine operation, one bit

  lemma SetIn(x: bv32, y: bv32, k: nat)
    requires k < 32 && Bit(x, k)
    ensures Bit(SetMask(x, y), k) && Bit(SetMask(y, x), k)
  {
  }

  lemma SetOut(x: bv32, y: bv32, k: nat)
    requires k < 32 && Bit(SetMask(x, y), k) && !Bit(x, k)
    ensures Bit(y, k)
  {
  }

  lemma BothIn(x: bv32, y: bv32, k: nat)
    requires k < 32 && Bit(x, k) && Bit(y, k)
    ensures Bit(Both(x, y), k)
  {
  }

  lemma BothOut(x: bv32, y: bv32, k: nat)
    requires k < 32 && Bit(Both(x, y), k)
    ensures Bit(x, k) && Bit(y, k)
  {
  }

  lemma ClearIn(x: bv32, y: bv32, k: nat)
    requires k < 32 && Bit(x, k) && !Bit(y, k)
    ensures Bit(ClearMask(x, y), k)
  {
  }

  lemma ClearOut(x: bv32, y: bv32, k: nat)
    requires k < 32 && Bit(ClearMask(x, y), k)
    ensures Bit(x, k) && !Bit(y, k)
  {
  }

  lemma OneBitSelf(k: nat)
    requires k < 32
    ensures Bit(OneBit(k), k)
  {
  }

  lemma {:induction false} OneBitOther(j: nat, k: nat)
    requires j < 32 && k < 32 && j != k
    ensures !Bit(OneBit(j), k)
  {
    hide OneBit;
    OneBitZero();
    if j == 0 {
      OneBitStep(k - 1);
    } else if k == 0 {
      OneBitStep(j - 1);
    } else {
      OneBitOther(j - 1, k - 1);
      OneBitStep(j - 1);
      OneBitStep(k - 1);
    }
    ShiftedApart(if j == 0 then 0 else OneBit(j - 1), if k == 0 then 0 else OneBit(k - 1));
  }

  lemma OneBitZero()
    ensures OneBit(0) == 1
  {
  }

  lemma ShiftedApart(x: bv32, y: bv32)
    ensures x & y == 0 ==> (x << 1) & (y << 1) == 0
    ensures 1 & (x << 1) == 0 && 1 & (y << 1) == 0
  {
  }

  lemma ConstBits(k: nat)
    requires k < 32
    ensures !Bit(0, k) && Bit(ALL_ONES, k)
  {
  }

  lemma MaskStep(n: nat)
    requires n < 32
    ensures MakeMask(n + 1) == SetMask(MakeMask(n), OneBit(n))
  {
  }

  lemma MaskEnds()
    ensures MakeMask(0) == 0 && MakeMask(32) == ALL_ONES
  {
  }

  lemma OneBitStep(k: nat)
    requires k < 31
    ensures OneBit(k + 1) == OneBit(k) << 1 && OneBit(k) & 0x8000_0000 == 0
  {
    ShlStep(1, k);
    OneBitBelowTop(k);
  }

  lemma OneBitBelowTop(k: nat)
    requires k < 31
    ensures OneBit(k) & 0x8000_0000 == 0
  {
  }

  lemma ShlOneIn(w: bv32, k: nat)
    requires k < 31 && Bit(w, k)
    ensures Bit(Shl(w, 1), k + 1)
  {
    hide OneBit;
    OneBitStep(k);
  }

  lemma ShlOneOut(w: bv32, k: nat)
    requires k < 31 && Bit(Shl(w, 1), k + 1)
    ensures Bit(w, k)
  {
    hide OneBit;
    OneBitStep(k);
  }

  lemma ShlOneLow(w: bv32)
    ensures !Bit(Shl(w, 1), 0)
  {
  }

  lemma ShlZero(w: bv32)
    ensures Shl(w, 0) == w
  {
  }

  lemma ShiftFrom0(w: bv32, b: nat)
    requires b < 3
    ensures w << (b + 1) == (w << b) << 1
  {
    match b {
      case 0 => assert w << 1 == (w << 0) << 1;
      case 1 => assert w << 2 == (w << 1) << 1;
      case 2 => assert w << 3 == (w << 2) << 1;
    }
  }

  lemma ShiftFrom3(w: bv32, b: nat)
    requires 3 <= b < 6
    ensures w << (b + 1) == (w << b) << 1
  {
    match b {
      case 3 => assert w << 4 == (w << 3) << 1;
      case 4 => assert w << 5 == (w << 4) << 1;
      case 5 => assert w << 6 == (w << 5) << 1;
    }
  }

  lemma ShiftFrom6(w: bv32, b: nat)
    requires 6 <= b < 11
    ensures w << (b + 1) == (w << b) << 1
  {
    match b {
      case 6 => assert w << 7 == (w << 6) << 1;
      case 7 => assert w << 8 == (w << 7) << 1;
      case 8 => assert w << 9 == (w << 8) << 1;
      case 9 => assert w << 10 == (w << 9) << 1;
      case 10 => assert w << 11 == (w << 10) << 1;
    }
  }

  lemma ShiftFrom11(w: bv32, b: nat)
    requires 11 <= b < 16
    ensures w << (b + 1) == (w << b) << 1
  {
    match b {
      case 11 => assert w << 12 == (w << 11) << 1;
      case 12 => assert w << 13 == (w << 12) << 1;
      case 13 => assert w << 14 == (w << 13) << 1;
      case 14 => assert w << 15 == (w << 14) << 1;
      case 15 => assert w << 16 == (w << 15) << 1;
    }
  }

  lemma ShiftFrom16(w: bv32, b: nat)
    requires 16 <= b < 21
    ensures w << (b + 1) == (w << b) << 1
  {
    match b {
      case 16 => assert w << 17 == (w << 16) << 1;
      case 17 => assert w << 18 == (w << 17) << 1;
      case 18 => assert w << 19 == (w << 18) << 1;
      case 19 => assert w << 20 == (w << 19) << 1;
      case 20 => assert w << 21 == (w << 20) << 1;
    }
  }

  lemma ShiftFrom21(w: bv32, b: nat)
    requires 21 <= b < 26
    ensures w << (b + 1) == (w << b) << 1
  {
    match b {
      case 21 => assert w << 22 == (w << 21) << 1;
      case 22 => assert w << 23 == (w << 22) << 1;
      case 23 => assert w << 24 == (w << 23) << 1;
      case 24 => assert w << 25 == (w << 24) << 1;
      case 25 => assert w << 26 == (w << 25) << 1;
    }
  }

  lemma ShiftFrom26(w: bv32, b: nat)
    requires 26 <= b < 31
    ensures w << (b + 1) == (w << b) << 1
  {
    match b {
      case 26 => assert w << 27 == (w << 26) << 1;
      case 27 => assert w << 28 == (w << 27) << 1;
      case 28 => assert w << 29 == (w << 28) << 1;
      case 29 => assert w << 30 == (w << 29) << 1;
      case 30 => assert w << 31 == (w << 30) << 1;
    }
  }

  lemma ShiftLow(w: bv32, b: nat)
    requires b < 11
    ensures w << (b + 1) == (w << b) << 1
  {
    if b < 3 { ShiftFrom0(w, b); } else if b < 6 { ShiftFrom3(w, b); } else { ShiftFrom6(w, b); }
  }

  lemma ShiftMiddle(w: bv32, b: nat)
    requires 11 <= b < 21
    ensures w << (b + 1) == (w << b) << 1
  {
    if b < 16 { ShiftFrom11(w, b); } else { ShiftFrom16(w, b); }
  }

  lemma ShiftHigh(w: bv32, b: nat)
    requires 21 <= b < 31
    ensures w << (b + 1) == (w << b) << 1
  {
    if b < 26 { ShiftFrom21(w, b); } else { ShiftFrom26(w, b); }
  }

  lemma ShlStep(w: bv32, b: nat)
    requires b < 31
    ensures Shl(w, b + 1) == Shl(Shl(w, b), 1)
  {
    if b < 11 { ShiftLow(w, b); } else if b < 21 { ShiftMiddle(w, b); } else { ShiftHigh(w, b); }
  }

  // ----- the same facts as equivalences

  lemma OpBits(x: bv32, y: bv32, k: nat)
    requires k < 32
    ensures Bit(SetMask(x, y), k) <==> Bit(x, k) || Bit(y, k)
    ensures Bit(Both(x, y), k) <==> Bit(x, k) && Bit(y, k)
    ensures Bit(ClearMask(x, y), k) <==> Bit(x, k) && !Bit(y, k)
  {
    hide *;
    if Bit(x, k) { SetIn(x, y, k); }
    if Bit(y, k) { SetIn(y, x, k); }
    if Bit(SetMask(x, y), k) && !Bit(x, k) { SetOut(x, y, k); }
    if Bit(Both(x, y), k) { BothOut(x, y, k); }
    if Bit(x, k) && Bit(y, k) { BothIn(x, y, k); }
    if Bit(ClearMask(x, y), k) { ClearOut(x, y, k); }
    if Bit(x, k) && !Bit(y, k) { ClearIn(x, y, k); }
  }

  lemma {:induction false} LowMaskBits(n: nat, k: nat)
    requires n <= 32 && k < 32
    ensures Bit(MakeMask(n), k) <==> k < n
  {
    hide *;
    MaskEnds();
    ConstBits(k);
    if n > 0 {
      LowMaskBits(n - 1, k);
      MaskStep(n - 1);
      if k == n - 1 {
        OneBitSelf(k);
      } else {
        OneBitOther(n - 1, k);
      }
      OpBits(MakeMask(n - 1), OneBit(n - 1), k);
    }
  }

  lemma {:induction false} ShlBits(w: bv32, b: nat, k: nat)
    requires b < 32 && k < 32
    ensures Bit(Shl(w, b), k) <==> b <= k && Bit(w, k - b)
  {
    hide *;
    if b == 0 {
      ShlZero(w);
    } else {
      ShlStep(w, b - 1);
      var v := Shl(w, b - 1);
      if k == 0 {
        ShlOneLow(v);
      } else {
        ShlBits(w, b - 1, k - 1);
        if Bit(v, k - 1) { ShlOneIn(v, k - 1); }
        if Bit(Shl(v, 1), k) { ShlOneOut(v, k - 1); }
      }
    }
  }

  /** A mask of `n` bits shifted by `b` holds exactly the bits `b .. b + n`. */
  lemma MaskBits(n: nat, b: nat, k: nat)
    requires b < 32 && n + b <= 32 && k < 32
    ensures Bit(Shl(MakeMask(n), b), k) <==> b <= k < b + n
  {
    hide *;
    ShlBits(MakeMask(n), b, k);
    if b <= k { LowMaskBits(n, k - b); }
  }

  // ----- from words back to bits

  lemma DropTopBit(z: bv32, m: bv32, p: bv32)
    requires ClearMask(z, SetMask(m, p)) == 0 && z & p == 0
    ensures ClearMask(z, m) == 0
  {
  }

  lemma ClearNothing(z: bv32)
    ensures ClearMask(z, 0) == z && ClearMask(z, ALL_ONES) == 0
  {
  }

  lemma {:induction false} HighestBit(z: bv32, n: nat) returns (k: nat)
    requires n <= 32 && z != 0 && ClearMask(z, MakeMask(n)) == 0
    ensures k < n && Bit(z, k)
  {
    hide MakeMask, ClearMask, SetMask, OneBit;
    MaskEnds();
    ClearNothing(z);
    if Bit(z, n - 1) {
      k := n - 1;
    } else {
      MaskStep(n - 1);
      DropTopBit(z, MakeMask(n - 1), OneBit(n - 1));
      k := HighestBit(z, n - 1);
    }
  }

  /** A word that is not zero has a bit set. */
  lemma NonZeroBit(z: bv32) returns (k: nat)
    requires z != 0
    ensures k < 32 && Bit(z, k)
  {
    hide *;
    MaskEnds();
    ClearNothing(z);
    k := HighestBit(z, 32);
  }

  lemma DifferenceIsClear(x: bv32, y: bv32)
    requires ClearMask(x, y) == 0 && ClearMask(y, x) == 0
    ensures x == y
  {
  }

  /** Words are equal when all their bits are. */
  lemma SameBits(x: bv32, y: bv32)
    requires forall k :: 0 <= k < 32 ==> Bit(x, k) == Bit(y, k)
    ensures x == y
  {
    hide *;
    if ClearMask(x, y) != 0 {
      var k := NonZeroBit(ClearMask(x, y));
      OpBits(x, y, k);
      assert false;
    }
    if ClearMask(y, x) != 0 {
      var k := NonZeroBit(ClearMask(y, x));
      OpBits(y, x, k);
      assert false;
    }
    DifferenceIsClear(x, y);
  }

  /** The test `word & mask == 0` asks that every bit of the mask is clear in the word. */
  lemma MaskFree(w: bv32, n: nat, b: nat)
    requires b < 32 && n + b <= 32
    ensures Both(w, Shl(MakeMask(n), b)) == 0 <==> forall k :: b <= k < b + n ==> !Bit(w, k)
  {
    hide *;
    var m := Shl(MakeMask(n), b);
    if Both(w, m) != 0 {
      var k := NonZeroBit(Both(w, m));
      OpBits(w, m, k);
      MaskBits(n, b, k);
    }
    if k :| b <= k < b + n && Bit(w, k) {
      OpBits(w, m, k);
      MaskBits(n, b, k);
      ConstBits(k);
    }
  }

  /** The test `word & mask == mask` asks that every bit of the mask is set in the word. */
  lemma MaskFull(w: bv32, n: nat, b: nat)
    requires b < 32 && n + b <= 32
    ensures Both(w, Shl(MakeMask(n), b)) == Shl(MakeMask(n), b)
       <==> forall k :: b <= k < b + n ==> Bit(w, k)
  {
    hide *;
    var m := Shl(MakeMask(n), b);
    if Both(w, m) == m {
      forall k | b <= k < b + n ensures Bit(w, k) {
        OpBits(w, m, k);
        MaskBits(n, b, k);
      }
    }
    if forall k :: b <= k < b + n ==> Bit(w, k) {
      forall k | 0 <= k < 32 ensures Bit(Both(w, m), k) == Bit(m, k) {
        OpBits(w, m, k);
        MaskBits(n, b, k);
      }
      SameBits(Both(w, m), m);
    }
  }

  /** Setting or clearing a shifted mask changes exactly the bits `b .. b + n`. */
  lemma MaskUpdate(w: bv32, n: nat, b: nat)
    requires b < 32 && n + b <= 32
    ensures forall k :: 0 <= k < 32 ==> (Bit(SetMask(w, Shl(MakeMask(n), b)), k) <==> Bit(w, k) || b <= k < b + n)
    ensures forall k :: 0 <= k < 32 ==> (Bit(ClearMask(w, Shl(MakeMask(n), b)), k) <==> Bit(w, k) && !(b <= k < b + n))
  {
    hide *;
    forall k | 0 <= k < 32
      ensures Bit(SetMask(w, Shl(MakeMask(n), b)), k) <==> Bit(w, k) || b <= k < b + n
      ensures Bit(ClearMask(w, Shl(MakeMask(n), b)), k) <==> Bit(w, k) && !(b <= k < b + n)
    {
      OpBits(w, Shl(MakeMask(n), b), k);
      MaskBits(n, b, k);
    }
  }
}
