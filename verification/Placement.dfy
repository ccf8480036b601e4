/** What a rehash does with the slots of a directory, as a function of the slots and of what their offsets read as
    (vfs/gfs/directory_hashmap.rs). */
module Placements {
  import opened Hashes
  import opened Memory
  import opened Texts

  const MAXIMUM_ENTRIES: nat := 16

  datatype Entry<L> = Entry(offset: nat, link: L)

  datatype Bucket<L> = Bucket(entries: seq<Entry<L>>, used: nat) {
    predicate IsFull() { used == |entries| }
    predicate CanGrow() { |entries| != MAXIMUM_ENTRIES }
    predicate Fine() { used <= |entries| && |entries| > 0 }

    function InUse(): seq<Entry<L>>
      requires Fine()
    {
      entries[..used]
    }

    function Append(e: Entry<L>): Bucket<L>
      requires used < |entries|
    {
      Bucket(entries[used := e], used + 1)
    }
  }

  /** What stored offsets read as. */
  type Readings = map<nat, seq<Byte>>

  ghost predicate Reads<L>(texts: Readings, e: Entry<L>, name: seq<Byte>) {
    e.offset in texts && texts[e.offset] == name
  }

  /** The link of the first entry that reads as the name. */
  ghost function FirstIn<L>(texts: Readings, entries: seq<Entry<L>>, name: seq<Byte>): (r: Option<L>)
    ensures r.None? <==> forall i :: 0 <= i < |entries| ==> !Reads(texts, entries[i], name)
  {
    if entries == [] then None
    else
      var k := |entries| - 1;
      var before := FirstIn(texts, entries[..k], name);
      if before.Some? then before else if Reads(texts, entries[k], name) then Some(entries[k].link) else None
  }

  /** The bucket that an entry goes to. */
  ghost function HashOf<L>(texts: Readings, e: Entry<L>, n: nat): (h: nat)
    requires n > 0
    ensures h < n
  {
    if e.offset in texts then Hash(texts[e.offset], n) else 0
  }

  /** The slots that go to bucket `j`, in their order. */
  ghost function Sent<L>(texts: Readings, slots: seq<Entry<L>>, j: nat, n: nat): seq<Entry<L>>
    requires n > 0
  {
    if slots == [] then []
    else
      var k := |slots| - 1;
      var before := Sent(texts, slots[..k], j, n);
      if HashOf(texts, slots[k], n) == j then before + [slots[k]] else before
  }

  /** All slots that read as a name go to the same bucket, so the first of them stays the first. */
  lemma {:induction false} FirstInSent<L>(texts: Readings, slots: seq<Entry<L>>, name: seq<Byte>, j: nat, n: nat)
    requires n > 0 && forall i :: 0 <= i < |slots| ==> slots[i].offset in texts
    ensures FirstIn(texts, Sent(texts, slots, j, n), name)
        == if j == Hash(name, n) then FirstIn(texts, slots, name) else None
  {
    if slots != [] {
      var k := |slots| - 1;
      FirstInSent(texts, slots[..k], name, j, n);
      var sent := Sent(texts, slots, j, n);
      assert HashOf(texts, slots[k], n) == j ==> sent[..|sent| - 1] == Sent(texts, slots[..k], j, n);
    }
  }

  /** The block of a bucket that began with four entries and doubled whenever it was full. */
  function SizeFor(used: nat): nat { if used <= 4 then 4 else if used <= 8 then 8 else MAXIMUM_ENTRIES }

  /** How many of the slots find their bucket full and in need of a larger block. */
  ghost function Growths<L>(texts: Readings, slots: seq<Entry<L>>, n: nat): nat
    requires n > 0
  {
    if slots == [] then 0
    else
      var k := |slots| - 1;
      Growths(texts, slots[..k], n)
      + if |Sent(texts, slots[..k], HashOf(texts, slots[k], n), n)| in {4, 8} then 1 else 0
  }

  datatype Outcome = Fits | NoBlock | Overflow

  /** How far the slots can be placed one by one with `blocks` larger blocks to spare. */
  ghost function Placing<L>(texts: Readings, slots: seq<Entry<L>>, n: nat, blocks: nat): Outcome
    requires n > 0
  {
    if slots == [] then Fits
    else
      var k := |slots| - 1;
      var before := Placing(texts, slots[..k], n, blocks);
      var there := |Sent(texts, slots[..k], HashOf(texts, slots[k], n), n)|;
      if !before.Fits? then before
      else if there == MAXIMUM_ENTRIES then Overflow
      else if there in {4, 8} && Growths(texts, slots[..k], n) == blocks then NoBlock
      else Fits
  }

  ghost predicate NoneCrowded<L>(texts: Readings, slots: seq<Entry<L>>, n: nat)
    requires n > 0
  {
    forall j :: 0 <= j < n ==> |Sent(texts, slots, j, n)| <= MAXIMUM_ENTRIES
  }

  /** All slots are placed exactly when no more than 16 go to one bucket and there are enough larger blocks. */
  lemma {:induction false} FitsExactly<L>(texts: Readings, slots: seq<Entry<L>>, n: nat, blocks: nat)
    requires n > 0
    ensures Placing(texts, slots, n, blocks).Fits?
        <==> NoneCrowded(texts, slots, n) && Growths(texts, slots, n) <= blocks
  {
    if slots != [] {
      var k := |slots| - 1;
      FitsExactly(texts, slots[..k], n, blocks);
      CrowdedByOne(texts, slots, n);
    }
  }

  lemma CrowdedByOne<L>(texts: Readings, slots: seq<Entry<L>>, n: nat)
    requires n > 0 && slots != []
    ensures var k := |slots| - 1;
            NoneCrowded(texts, slots, n)
            <==> && NoneCrowded(texts, slots[..k], n)
                 && |Sent(texts, slots[..k], HashOf(texts, slots[k], n), n)| < MAXIMUM_ENTRIES
  {
    var k := |slots| - 1;
    var h := HashOf(texts, slots[k], n);
    forall j | 0 <= j < n
      ensures |Sent(texts, slots, j, n)| == |Sent(texts, slots[..k], j, n)| + if j == h then 1 else 0 {}
    assert 0 <= h < n;
    if NoneCrowded(texts, slots, n) { assert |Sent(texts, slots, h, n)| <= MAXIMUM_ENTRIES; }
  }

  lemma {:induction false} StaysUnplaced<L>(texts: Readings, slots: seq<Entry<L>>, more: seq<Entry<L>>, n: nat,
                                             blocks: nat)
    requires n > 0 && !Placing(texts, slots, n, blocks).Fits?
    ensures Placing(texts, slots + more, n, blocks) == Placing(texts, slots, n, blocks)
  {
    if more == [] {
      assert slots + more == slots;
    } else {
      var k := |more| - 1;
      assert (slots + more)[..|slots| + k] == slots + more[..k];
      StaysUnplaced(texts, slots, more[..k], n, blocks);
    }
  }

  /** One slot more. */
  lemma PlacingOne<L>(texts: Readings, slots: seq<Entry<L>>, e: Entry<L>, n: nat, blocks: nat)
    requires n > 0 && Placing(texts, slots, n, blocks).Fits?
    ensures var there := |Sent(texts, slots, HashOf(texts, e, n), n)|;
            && there <= MAXIMUM_ENTRIES && Growths(texts, slots, n) <= blocks
            && Growths(texts, slots + [e], n) == Growths(texts, slots, n) + (if there in {4, 8} then 1 else 0)
            && Placing(texts, slots + [e], n, blocks)
               == if there == MAXIMUM_ENTRIES then Overflow
                  else if there in {4, 8} && Growths(texts, slots, n) == blocks then NoBlock
                  else Fits
  {
    assert (slots + [e])[..|slots|] == slots;
    FitsExactly(texts, slots, n, blocks);
    assert |Sent(texts, slots, HashOf(texts, e, n), n)| <= MAXIMUM_ENTRIES;
  }

  /** New buckets of four entries each, cut from a block. */
  function Emptied<L>(table: seq<Entry<L>>, count: nat): seq<Bucket<L>>
    requires |table| >= 4 * count
  {
    seq(count, j requires 0 <= j < count => Bucket(table[4 * j..4 * j + 4], 0))
  }

  lemma NothingPlaced<L>(texts: Readings, table: seq<Entry<L>>, n: nat, blocks: nat)
    requires n > 0 && |table| >= 8 * n
    ensures Placed(texts, [], Emptied(table, 2 * n), n)
    ensures Growths<L>(texts, [], n) == 0 && Placing<L>(texts, [], n, blocks).Fits?
  {
  }

  /** The slots that read as a name. */
  ghost function Alike<L>(texts: Readings, slots: seq<Entry<L>>, name: seq<Byte>): nat {
    if slots == [] then 0
    else Alike(texts, slots[..|slots| - 1], name) + if Reads(texts, slots[|slots| - 1], name) then 1 else 0
  }

  lemma {:induction false} AlikeGoTogether<L>(texts: Readings, slots: seq<Entry<L>>, name: seq<Byte>, n: nat)
    requires n > 0
    ensures Alike(texts, slots, name) <= |Sent(texts, slots, Hash(name, n), n)|
  {
    if slots != [] { AlikeGoTogether(texts, slots[..|slots| - 1], name, n); }
  }

  /** More than 16 slots that read the same never fit. Slots that are not in use are placed too, and those of zeroed
      memory all read as what is stored at offset 0. */
  lemma ManyAlikeNeverFit<L>(texts: Readings, slots: seq<Entry<L>>, name: seq<Byte>, n: nat, blocks: nat)
    requires n > 0 && Alike(texts, slots, name) > MAXIMUM_ENTRIES
    ensures !Placing(texts, slots, n, blocks).Fits?
  {
    AlikeGoTogether(texts, slots, name, n);
    FitsExactly(texts, slots, n, blocks);
    assert |Sent(texts, slots, Hash(name, n), n)| > MAXIMUM_ENTRIES;
  }

  // ----- the new buckets

  /** A new bucket holds what was sent to it. */
  ghost predicate HoldsSent<L>(texts: Readings, slots: seq<Entry<L>>, b: Bucket<L>, j: nat, n: nat)
    requires n > 0
  {
    && b.used == |Sent(texts, slots, j, n)| <= |b.entries| == SizeFor(b.used)
    && b.entries[..b.used] == Sent(texts, slots, j, n)
  }

  ghost predicate Placed<L>(texts: Readings, slots: seq<Entry<L>>, buckets: seq<Bucket<L>>, n: nat)
    requires n > 0
  {
    |buckets| == 2 * n && forall j :: 0 <= j < |buckets| ==> HoldsSent(texts, slots, buckets[j], j, n)
  }

  lemma PlacedOne<L>(texts: Readings, slots: seq<Entry<L>>, e: Entry<L>, buckets: seq<Bucket<L>>, b: Bucket<L>, n: nat)
    requires n > 0 && Placed(texts, slots, buckets, n)
    requires var was := buckets[HashOf(texts, e, n)];
             was.Fine() && b.Fine() && b.used == was.used && b.InUse() == was.InUse()
    requires b.used < |b.entries| == SizeFor(b.used + 1)
    ensures Placed(texts, slots + [e], buckets[HashOf(texts, e, n) := b.Append(e)], n)
  {
    var h := HashOf(texts, e, n);
    assert (slots + [e])[..|slots|] == slots;
    assert HoldsSent(texts, slots, buckets[h], h, n);
    assert b.Append(e).entries[..b.used + 1] == b.entries[..b.used] + [e];
    var after := buckets[h := b.Append(e)];
    forall j | 0 <= j < |buckets| ensures HoldsSent(texts, slots + [e], after[j], j, n) {
      assert HoldsSent(texts, slots, buckets[j], j, n);
    }
  }

  /** The slots of all buckets, in use or not. */
  ghost function AllSlots<L>(buckets: seq<Bucket<L>>): seq<Entry<L>> {
    if buckets == [] then [] else AllSlots(buckets[..|buckets| - 1]) + buckets[|buckets| - 1].entries
  }

  lemma {:induction false} SlotIsThere<L>(buckets: seq<Bucket<L>>, b: nat, i: nat)
    requires b < |buckets| && i < |buckets[b].entries|
    ensures buckets[b].entries[i] in AllSlots(buckets)
  {
    if b < |buckets| - 1 { SlotIsThere(buckets[..|buckets| - 1], b, i); }
  }

  lemma {:induction false} SlotIsOfBucket<L>(buckets: seq<Bucket<L>>, e: Entry<L>) returns (b: nat, i: nat)
    requires e in AllSlots(buckets)
    ensures b < |buckets| && i < |buckets[b].entries| && buckets[b].entries[i] == e
  {
    var k := |buckets| - 1;
    if e in buckets[k].entries {
      b := k;
      i :| 0 <= i < |buckets[k].entries| && buckets[k].entries[i] == e;
    } else {
      b, i := SlotIsOfBucket(buckets[..k], e);
    }
  }

  lemma {:induction false} SlotsFrom<L>(buckets: seq<Bucket<L>>, i: nat) returns (rest: seq<Entry<L>>)
    requires i <= |buckets|
    ensures AllSlots(buckets) == AllSlots(buckets[..i]) + rest
  {
    var k := |buckets| - 1;
    if i == |buckets| {
      assert buckets[..i] == buckets;
      rest := [];
    } else {
      assert buckets[..k][..i] == buckets[..i];
      rest := SlotsFrom(buckets[..k], i);
      rest := rest + buckets[k].entries;
    }
  }

  lemma PlacedTwice<L>(texts: Readings, slots: seq<Entry<L>>, buckets: seq<Bucket<L>>, n: nat)
    requires n > 0 && Placed(texts, slots, buckets, n)
    ensures |buckets| == 2 * n
  {
  }

  /** After the rehash a lookup over `2 * n` buckets meets the first slot that read as the name, in use or not, if the
      name has the same hash as before, and nothing if it has not. */
  lemma LookedUpAfter<L>(texts: Readings, slots: seq<Entry<L>>, buckets: seq<Bucket<L>>, n: nat, name: seq<Byte>)
    requires n > 0 && Placed(texts, slots, buckets, n) && forall i :: 0 <= i < |slots| ==> slots[i].offset in texts
    ensures var h := Hash(name, 2 * n);
            && buckets[h].Fine()
            && FirstIn(texts, buckets[h].InUse(), name)
               == if h == Hash(name, n) then FirstIn(texts, slots, name) else None
  {
    assert HoldsSent(texts, slots, buckets[Hash(name, 2 * n)], Hash(name, 2 * n), n);
    FirstInSent(texts, slots, name, Hash(name, 2 * n), n);
  }
}
