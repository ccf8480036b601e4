/** Whole runs of `alloc` and `free`: who owns which page. */
module AllocatorRuns {
  import opened Bits
  import opened Bitmap
  import opened Memory
  import opened Allocators

  /** The bitmap together with the blocks handed out and not yet given back. */
  datatype State = State(words: seq<bv32>, live: set<MemoryBlock>)

  /** A request served within the range, or from behind it. */
  ghost predicate AllocStep(addend: nat, before: State, n: U16, r: Result<MemoryBlock>, after: State) {
    && (AllocSpec(before.words, addend, n, r, after.words) || StraySpec(before.words, addend, n, r, after.words))
    && after.live == match r case Ok(b) => before.live + {b} case Err(_) => before.live
  }

  /** Callers give back only blocks they hold. */
  ghost predicate FreeStep(addend: nat, before: State, b: MemoryBlock, r: Result<()>, after: State) {
    && b in before.live
    && FreeSpec(before.words, addend, b, r, after.words)
    && after.live == if r.Ok? then before.live - {b} else before.live
  }

  ghost predicate Step(addend: nat, before: State, after: State) {
    || (exists n: U16, r :: AllocStep(addend, before, n, r, after))
    || (exists b, r :: FreeStep(addend, before, b, r, after))
  }

  ghost predicate Run(addend: nat, words: seq<bv32>, states: seq<State>) {
    && |states| > 0
    && states[0] == State(words, {})
    && forall i :: 0 <= i < |states| - 1 ==> Step(addend, states[i], states[i + 1])
  }

  ghost predicate Holds(addend: nat, b: MemoryBlock, p: nat) {
    b.base <= addend + p * PAGE && addend + p * PAGE < b.End()
  }

  ghost predicate BlockOk(addend: nat, words: seq<bv32>, b: MemoryBlock) {
    && b.base >= addend && (b.base - addend) % PAGE == 0
    && b.length % PAGE == 0 && 0 < b.length / PAGE < 0x1_0000
    && FirstPage(addend, b) + b.length / PAGE <= 32 * |words|
  }

  ghost predicate Owned(addend: nat, live: set<MemoryBlock>, p: nat) {
    exists b :: b in live && Holds(addend, b, p)
  }

  ghost predicate Disjoint(a: MemoryBlock, b: MemoryBlock) {
    a.End() <= b.base || b.End() <= a.base
  }

  /** Every occupied page was occupied at the start or belongs to a live block, never to both and never
      to two blocks. */
  ghost predicate Accounted(addend: nat, start: seq<bv32>, st: State) {
    && |st.words| == |start| > 0
    && (forall b :: b in st.live ==> BlockOk(addend, st.words, b))
    && (forall a, b :: a in st.live && b in st.live && a != b ==> Disjoint(a, b))
    && (forall p :: 0 <= p < 32 * |start| ==>
          (Occupied(st.words, p) <==> Occupied(start, p) || Owned(addend, st.live, p)))
    && (forall p :: 0 <= p < 32 * |start| && Occupied(start, p) ==> !Owned(addend, st.live, p))
  }

  lemma HoldsPages(addend: nat, words: seq<bv32>, b: MemoryBlock, p: nat)
    requires BlockOk(addend, words, b)
    ensures var s := FirstPage(addend, b);
            Holds(addend, b, p) <==> s <= p < s + b.length / PAGE
  {
  }

  lemma DisjointBlocksSharePage(addend: nat, a: MemoryBlock, b: MemoryBlock, p: nat)
    requires Disjoint(a, b) && Holds(addend, a, p)
    ensures !Holds(addend, b, p)
  {
  }

  lemma FreshBlockDisjoint(addend: nat, words: seq<bv32>, a: MemoryBlock, b: MemoryBlock)
    requires BlockOk(addend, words, a) && BlockOk(addend, words, b)
    requires forall p: nat :: Holds(addend, b, p) ==> !Holds(addend, a, p)
    ensures Disjoint(a, b)
  {
    var s, t := FirstPage(addend, a), FirstPage(addend, b);
    HoldsPages(addend, words, a, s);
    HoldsPages(addend, words, b, s);
    HoldsPages(addend, words, a, t);
    HoldsPages(addend, words, b, t);
  }

  lemma AllocKeepsAccounts(addend: nat, start: seq<bv32>, before: State, n: U16, r: Result<MemoryBlock>, after: State)
    requires Accounted(addend, start, before) && AllocStep(addend, before, n, r, after)
    ensures Accounted(addend, start, after)
  {
    hide Bit, Occupied;
    if r.Ok? {
      var b := r.value;
      var s := FirstPage(addend, b);
      assert FreeRun(before.words, s, n);
      assert BlockOk(addend, after.words, b);
      forall a | a in before.live ensures Disjoint(a, b) && BlockOk(addend, after.words, a) {
        forall p: nat | Holds(addend, b, p) ensures !Holds(addend, a, p) {
          HoldsPages(addend, after.words, b, p);
          assert !Occupied(before.words, p);
          assert !Owned(addend, before.live, p);
        }
        FreshBlockDisjoint(addend, after.words, a, b);
      }
      forall p | 0 <= p < 32 * |start|
        ensures Occupied(after.words, p) <==> Occupied(start, p) || Owned(addend, after.live, p)
        ensures Occupied(start, p) ==> !Owned(addend, after.live, p)
      {
        HoldsPages(addend, after.words, b, p);
        OwnedAfterAdding(addend, before.live, b, p);
        assert Occupied(after.words, p) <==> Occupied(before.words, p) || s <= p < s + n;
        assert s <= p < s + n ==> !Occupied(before.words, p);
      }
    }
  }

  lemma OwnedAfterAdding(addend: nat, live: set<MemoryBlock>, b: MemoryBlock, p: nat)
    ensures Owned(addend, live + {b}, p) <==> Owned(addend, live, p) || Holds(addend, b, p)
  {
    if Owned(addend, live, p) {
      var a :| a in live && Holds(addend, a, p);
      assert a in live + {b};
    }
    if Holds(addend, b, p) { assert b in live + {b}; }
  }

  /** A live block is occupied, so `free` accepts it exactly when it ends below 32 GiB. */
  lemma LiveBlockFrees(addend: nat, start: seq<bv32>, before: State, b: MemoryBlock, r: Result<()>, after: State)
    requires Accounted(addend, start, before) && addend % PAGE == 0
    requires FreeStep(addend, before, b, r, after)
    ensures r.Ok? <==> b.base + b.length <= 0x8_0000_0000
    ensures r.Ok? ==> Cleared(before.words, after.words, FirstPage(addend, b), b.length / PAGE)
    ensures r.Err? ==> r.error == InvalidAddress && after == before
  {
    hide Bit, Occupied, LooksOccupied;
    var s, n := FirstPage(addend, b), b.length / PAGE;
    forall p | s <= p < s + n ensures Occupied(before.words, p) {
      HoldsPages(addend, before.words, b, p);
      assert Owned(addend, before.live, p);
    }
    OccupiedRunLooksOccupied(before.words, s, n);
  }

  lemma FreeKeepsAccounts(addend: nat, start: seq<bv32>, before: State, b: MemoryBlock, r: Result<()>, after: State)
    requires Accounted(addend, start, before) && addend % PAGE == 0
    requires FreeStep(addend, before, b, r, after)
    ensures Accounted(addend, start, after)
  {
    hide Bit, Occupied, FreeSpec;
    LiveBlockFrees(addend, start, before, b, r, after);
    if r.Ok? {
      var s, n := FirstPage(addend, b), b.length / PAGE;
      forall p | 0 <= p < 32 * |start|
        ensures Occupied(after.words, p) <==> Occupied(start, p) || Owned(addend, after.live, p)
        ensures Occupied(start, p) ==> !Owned(addend, after.live, p)
      {
        HoldsPages(addend, before.words, b, p);
        assert Holds(addend, b, p) ==> Owned(addend, before.live, p);
        OwnedAfterAdding(addend, after.live, b, p);
        assert after.live + {b} == before.live;
        if Holds(addend, b, p) && Owned(addend, after.live, p) {
          var a :| a in after.live && Holds(addend, a, p);
          DisjointBlocksSharePage(addend, a, b, p);
          assert false;
        }
      }
    }
  }

  /** The accounts hold in every state of every run. */
  lemma {:induction false} RunAccounted(addend: nat, start: seq<bv32>, states: seq<State>, i: nat)
    requires |start| > 0 && addend % PAGE == 0
    requires Run(addend, start, states) && i < |states|
    ensures Accounted(addend, start, states[i])
  {
    hide AllocStep, FreeStep, Occupied;
    if i > 0 {
      RunAccounted(addend, start, states, i - 1);
      var before, after := states[i - 1], states[i];
      assert Step(addend, states[i - 1], states[i - 1 + 1]);
      if n: U16, r :| AllocStep(addend, before, n, r, after) {
        AllocKeepsAccounts(addend, start, before, n, r, after);
      } else {
        var b, r :| FreeStep(addend, before, b, r, after);
        FreeKeepsAccounts(addend, start, before, b, r, after);
      }
    }
  }

  lemma LiveWasFree(addend: nat, start: seq<bv32>, st: State, b: MemoryBlock, p: nat)
    requires Accounted(addend, start, st) && b in st.live
    requires FirstPage(addend, b) <= p < FirstPage(addend, b) + b.length / PAGE
    ensures p < 32 * |start| && !Occupied(start, p)
  {
    hide Occupied;
    HoldsPages(addend, st.words, b, p);
    assert Owned(addend, st.live, p);
  }

  /** While the guard word is all ones no block reaches into it. */
  lemma NotFromGuard(addend: nat, start: seq<bv32>, st: State, b: MemoryBlock)
    requires Accounted(addend, start, st) && b in st.live && Guarded(start)
    ensures FirstPage(addend, b) + b.length / PAGE <= 32 * (|start| - 1)
  {
    hide Occupied, Bit;
    var last := FirstPage(addend, b) + b.length / PAGE - 1;
    LiveWasFree(addend, start, st, b, last);
    if last >= 32 * (|start| - 1) { GuardOccupied(start, last); }
  }

  /** On a range that ends at or below the 32 GiB limit, giving back a live block never fails, at any point of any
      run; where the word behind the range can be handed out, its pages have to lie below the limit too. */
  lemma FreeNeverFails(addend: nat, start: seq<bv32>, states: seq<State>,
                       i: nat, b: MemoryBlock, r: Result<()>, after: State)
    requires |start| > 0 && addend % PAGE == 0
    requires addend + 32 * (if Guarded(start) then |start| - 1 else |start|) * PAGE <= MAXIMUM_ALLOCATABLE_ADDRESS
    requires Run(addend, start, states) && i < |states|
    requires FreeStep(addend, states[i], b, r, after)
    ensures r == Ok(()) && after.live == states[i].live - {b}
  {
    hide FreeSpec;
    RunAccounted(addend, start, states, i);
    LiveBlockFrees(addend, start, states[i], b, r, after);
    assert BlockOk(addend, states[i].words, b);
    if Guarded(start) { NotFromGuard(addend, start, states[i], b); }
    assert b.End() <= MAXIMUM_ALLOCATABLE_ADDRESS;
    assert r.value == ();
  }

  /** When everything handed out has been given back, the bitmap is the initial one, bit for bit. */
  lemma NothingLiveNothingLost(addend: nat, start: seq<bv32>, states: seq<State>, i: nat)
    requires |start| > 0 && addend % PAGE == 0
    requires Run(addend, start, states) && i < |states| && states[i].live == {}
    ensures states[i].words == start
  {
    hide Occupied, Run;
    RunAccounted(addend, start, states, i);
    forall p | 0 <= p < 32 * |start| ensures Occupied(states[i].words, p) == Occupied(start, p) {
      assert !Owned(addend, states[i].live, p);
    }
    SamePages(states[i].words, start);
  }

  /** Allocating and giving back at once leaves no trace. */
  lemma AllocThenFree(addend: nat, w0: seq<bv32>, n: U16, b: MemoryBlock, w1: seq<bv32>, r: Result<()>, w2: seq<bv32>)
    requires AllocSpec(w0, addend, n, Ok(b), w1) && addend % PAGE == 0
    requires FreeSpec(w1, addend, b, r, w2) && b.End() <= MAXIMUM_ALLOCATABLE_ADDRESS
    ensures r == Ok(()) && w2 == w0
  {
    hide Bit, Occupied, LooksOccupied;
    var s := FirstPage(addend, b);
    forall p | s <= p < s + n ensures Occupied(w1, p) { }
    OccupiedRunLooksOccupied(w1, s, n);
    MarkThenClear(w0, w1, w2, s, n);
  }

  /** A request for 2 pages fails although pages 31 and 32 are free: small requests never cross a word. */
  lemma SmallRequestsStayInsideAWord()
    ensures var words: seq<bv32> := [0x7FFF_FFFF, 0xFFFF_FFFE, 0xFFFF_FFFF];
            Guarded(words) && FreeRun(words, 31, 2) && forall s: nat :: !Fits(words, s, 2)
  {
    var words: seq<bv32> := [0x7FFF_FFFF, 0xFFFF_FFFE, 0xFFFF_FFFF];
    forall k | 0 <= k < 32
      ensures Bit(words[0], k) <==> k != 31
      ensures Bit(words[1], k) <==> k != 0
      ensures Bit(words[2], k)
    {
      hide OneBit, Bit;
      assert words[0] == ClearMask(ALL_ONES, OneBit(31)) && words[1] == ClearMask(ALL_ONES, OneBit(0)) by {
        Constants();
      }
      OpBits(ALL_ONES, OneBit(31), k);
      OpBits(ALL_ONES, OneBit(0), k);
      ConstBits(k);
      if k != 31 { OneBitOther(31, k); } else { OneBitSelf(31); }
      if k != 0 { OneBitOther(0, k); } else { OneBitSelf(0); }
    }
    hide Bit;
    assert forall p :: 0 <= p < 96 ==> (Occupied(words, p) <==> p != 31 && p != 32);
    forall s: nat ensures !Fits(words, s, 2) {
      if s + 2 <= 96 {
        assert s == 31 || Occupied(words, s) || Occupied(words, s + 1);
      }
    }
  }

  lemma Constants()
    ensures ClearMask(ALL_ONES, OneBit(31)) == 0x7FFF_FFFF
    ensures ClearMask(ALL_ONES, OneBit(0)) == 0xFFFF_FFFE
  {
  }
}
