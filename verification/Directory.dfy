/** The index of a directory: a hash map of names to links, in buckets that grow
    (vfs/gfs/directory_hashmap.rs). */
module Directories {
  import opened Hashes
  import opened Memory
  import opened Placements
  import opened Texts
  import opened Slabs

  datatype Insertion =
    | AllreadyPresent
    | EntryReallocationRequired
    | StringReallocationRequired
    | BucketReallocationRequired
    | Success(rehashed: bool)

  /** What the stores of buckets and of entries hand out: whether there is a run of buckets, how many blocks of entries
      there are, and what entry number `i` of block number `k` holds before it is written. */
  datatype Supply<L> = Supply(room: bool, served: nat, memory: (nat, nat) -> Entry<L>) {
    function Block(k: nat, length: nat): Option<seq<Entry<L>>> {
      if k < served then Some(seq(length, i requires 0 <= i < length => memory(k, i))) else None
    }
  }

  // ----- one bucket, over the names stored by offset

  ghost predicate Named<L>(names: map<nat, seq<Byte>>, b: Bucket<L>, i: nat, name: seq<Byte>) {
    i < b.used <= |b.entries| && b.entries[i].offset in names && names[b.entries[i].offset] == name
  }

  /** Bucket number `n` of `count`: each entry has a name of its own that hashes there, and the link that
      the plain map has for it. */
  ghost predicate BucketOk<L>(names: map<nat, seq<Byte>>, contents: map<seq<Byte>, L>, b: Bucket<L>, n: nat, count: nat)
    requires count > 0
  {
    && |b.entries| in {4, 8, 16} && b.used <= |b.entries|
    && (forall i :: 0 <= i < b.used ==>
          && b.entries[i].offset in names && var name := names[b.entries[i].offset];
          && Hash(name, count) == n && name in contents && contents[name] == b.entries[i].link)
    && (forall i, j :: 0 <= i < j < b.used ==> names[b.entries[i].offset] != names[b.entries[j].offset])
    && (forall name :: name in contents && Hash(name, count) == n ==> exists i :: Named(names, b, i, name))
  }

  /** A bucket is not concerned by a name that hashes elsewhere. */
  lemma OtherBucket<L>(names: map<nat, seq<Byte>>, names': map<nat, seq<Byte>>, contents: map<seq<Byte>, L>,
                       name: seq<Byte>, link: L, b: Bucket<L>, n: nat, count: nat)
    requires count > 0 && BucketOk(names, contents, b, n, count) && Hash(name, count) != n
    requires forall o :: o in names ==> o in names' && names'[o] == names[o]
    ensures BucketOk(names', contents[name := link], b, n, count)
  {
    hide Hash;
    forall other | other in contents[name := link] && Hash(other, count) == n
      ensures exists i :: Named(names', b, i, other) {
      var i :| Named(names, b, i, other);
      assert Named(names', b, i, other);
    }
  }

  lemma Appended<L>(names: map<nat, seq<Byte>>, offset: nat, contents: map<seq<Byte>, L>, name: seq<Byte>, link: L,
                    b: Bucket<L>, n: nat, count: nat)
    requires count > 0 && BucketOk(names, contents, b, n, count) && Hash(name, count) == n && b.used < |b.entries|
    requires name !in contents && offset !in names
    ensures BucketOk(names[offset := name], contents[name := link],
        Bucket(b.entries[b.used := Entry(offset, link)], b.used + 1), n, count)
  {
    hide Hash;
    var names', b' := names[offset := name], Bucket(b.entries[b.used := Entry(offset, link)], b.used + 1);
    forall other | other in contents[name := link] && Hash(other, count) == n
      ensures exists i :: Named(names', b', i, other) {
      if other == name {
        assert Named(names', b', b.used, other);
      } else {
        var i :| Named(names, b, i, other);
        assert Named(names', b', i, other);
      }
    }
  }

  /** Only the entries in use matter. */
  lemma Grown<L>(names: map<nat, seq<Byte>>, contents: map<seq<Byte>, L>,
                 b: Bucket<L>, entries: seq<Entry<L>>, n: nat, count: nat)
    requires count > 0 && BucketOk(names, contents, b, n, count)
    requires |entries| == 2 * |b.entries| && |b.entries| < MAXIMUM_ENTRIES && entries[..|b.entries|] == b.entries
    ensures BucketOk(names, contents, Bucket(entries, b.used), n, count)
  {
    hide Hash;
    assert forall i :: 0 <= i < |b.entries| ==> entries[i] == b.entries[i];
    forall name | name in contents && Hash(name, count) == n
      ensures exists i :: Named(names, Bucket(entries, b.used), i, name) {
      var i :| Named(names, b, i, name);
      assert Named(names, Bucket(entries, b.used), i, name);
    }
  }

  lemma {:induction false} FirstStays<L>(texts: Readings, entries: seq<Entry<L>>, i: nat, name: seq<Byte>)
    requires i <= |entries| && FirstIn(texts, entries[..i], name).Some?
    ensures FirstIn(texts, entries, name) == FirstIn(texts, entries[..i], name)
  {
    if i == |entries| {
      assert entries[..i] == entries;
    } else {
      var k := |entries| - 1;
      assert entries[..k][..i] == entries[..i];
      FirstStays(texts, entries[..k], i, name);
    }
  }

  /** One bucket answers as the plain map does. */
  lemma PlainAnswer<L>(names: map<nat, seq<Byte>>, texts: Readings, contents: map<seq<Byte>, L>, b: Bucket<L>, n: nat,
                       count: nat, name: seq<Byte>)
    requires count > 0 && BucketOk(names, contents, b, n, count) && Hash(name, count) == n
    requires forall o :: o in names ==> o in texts && texts[o] == names[o]
    ensures b.Fine()
    ensures FirstIn(texts, b.InUse(), name) == if name in contents then Some(contents[name]) else None
  {
    hide Hash;
    if name in contents {
      var i: nat :| Named(names, b, i, name);
      assert Reads(texts, b.InUse()[i], name);
      var k := FirstLink(texts, b.InUse(), name);
      assert b.InUse()[k] == b.entries[k];
    }
  }

  lemma {:induction false} FirstLink<L>(texts: Readings, entries: seq<Entry<L>>, name: seq<Byte>) returns (i: nat)
    requires FirstIn(texts, entries, name).Some?
    ensures i < |entries| && Reads(texts, entries[i], name) && FirstIn(texts, entries, name) == Some(entries[i].link)
  {
    var k := |entries| - 1;
    if FirstIn(texts, entries[..k], name).Some? {
      i := FirstLink(texts, entries[..k], name);
    } else {
      i := k;
    }
  }

  // ----- visiting all entries

  ghost predicate Distinct<L>(visited: seq<(seq<Byte>, L)>) {
    forall k, l :: 0 <= k < l < |visited| ==> visited[k].0 != visited[l].0
  }

  ghost function Entries<L>(names: map<nat, seq<Byte>>, b: Bucket<L>, n: nat): seq<(seq<Byte>, L)>
    requires n <= b.used <= |b.entries| && forall i :: 0 <= i < n ==> b.entries[i].offset in names
  {
    seq(n, i requires 0 <= i < n => (names[b.entries[i].offset], b.entries[i].link))
  }

  /** The entries of the first `n` buckets have been visited, and nothing else. */
  ghost predicate Visited<L>(contents: map<seq<Byte>, L>, visited: seq<(seq<Byte>, L)>, n: nat, count: nat)
    requires count > 0
  {
    && Distinct(visited)
    && (forall k :: 0 <= k < |visited| ==>
      visited[k].0 in contents && contents[visited[k].0] == visited[k].1 && Hash(visited[k].0, count) < n)
    && (forall name :: name in contents && Hash(name, count) < n ==> (name, contents[name]) in visited)
  }

  lemma OkParts<L>(names: map<nat, seq<Byte>>, contents: map<seq<Byte>, L>, b: Bucket<L>, n: nat, count: nat)
    requires count > 0 && BucketOk(names, contents, b, n, count)
    ensures b.used <= |b.entries| && forall i :: 0 <= i < b.used ==> b.entries[i].offset in names
  {
  }

  lemma NothingVisited<L>(contents: map<seq<Byte>, L>, count: nat)
    requires count > 0
    ensures Visited(contents, [], 0, count)
  {
  }

  lemma AllVisited<L>(contents: map<seq<Byte>, L>, visited: seq<(seq<Byte>, L)>, count: nat)
    requires count > 0 && Visited(contents, visited, count, count)
    ensures Distinct(visited)
    ensures forall k :: 0 <= k < |visited| ==> visited[k].0 in contents && contents[visited[k].0] == visited[k].1
    ensures forall name :: name in contents ==> (name, contents[name]) in visited
  {
    forall name | name in contents ensures (name, contents[name]) in visited { assert Hash(name, count) < count; }
  }

  lemma OneMoreBucket<L>(names: map<nat, seq<Byte>>, contents: map<seq<Byte>, L>,
                         b: Bucket<L>, visited: seq<(seq<Byte>, L)>, n: nat, count: nat)
    requires n < count && BucketOk(names, contents, b, n, count) && Visited(contents, visited, n, count)
    ensures b.used <= |b.entries| && (forall i :: 0 <= i < b.used ==> b.entries[i].offset in names)
    ensures Visited(contents, visited + Entries(names, b, b.used), n + 1, count)
  {
    hide Hash;
    var more := Entries(names, b, b.used);
    forall name | name in contents && Hash(name, count) < n + 1 ensures (name, contents[name]) in visited + more {
      if Hash(name, count) == n {
        var i: nat :| Named(names, b, i, name);
        assert more[i] == (name, contents[name]);
      }
    }
  }

  ghost predicate AllOk<L>(names: map<nat, seq<Byte>>, contents: map<seq<Byte>, L>, buckets: seq<Bucket<L>>) {
    forall n :: 0 <= n < |buckets| ==> BucketOk(names, contents, buckets[n], n, |buckets|)
  }

  /** The plain map has exactly the names in use, each in its bucket. */
  lemma AllOkHas<L>(names: map<nat, seq<Byte>>, contents: map<seq<Byte>, L>,
                    buckets: seq<Bucket<L>>, n: nat, name: seq<Byte>)
    requires AllOk(names, contents, buckets) && n < |buckets| && Hash(name, |buckets|) == n
    ensures name in contents <==> exists i :: 0 <= i < buckets[n].used && Named(names, buckets[n], i, name)
  {
    hide Hash;
    assert BucketOk(names, contents, buckets[n], n, |buckets|);
  }

  lemma AllOkAfterInsert<L>(names: map<nat, seq<Byte>>, offset: nat, contents: map<seq<Byte>, L>,
                            name: seq<Byte>, link: L, buckets: seq<Bucket<L>>, n: nat)
    requires AllOk(names, contents, buckets) && n < |buckets| && Hash(name, |buckets|) == n
        && buckets[n].used < |buckets[n].entries|
    requires name !in contents && offset !in names
    ensures var b := buckets[n];
            AllOk(names[offset := name], contents[name := link],
              buckets[n := Bucket(b.entries[b.used := Entry(offset, link)], b.used + 1)])
  {
    hide BucketOk, Hash;
    Appended(names, offset, contents, name, link, buckets[n], n, |buckets|);
    forall m | 0 <= m < |buckets| && m != n
      ensures BucketOk(names[offset := name], contents[name := link], buckets[m], m, |buckets|) {
      OtherBucket(names, names[offset := name], contents, name, link, buckets[m], m, |buckets|);
    }
  }

  lemma AllOkAfterGrow<L>(names: map<nat, seq<Byte>>, contents: map<seq<Byte>, L>, buckets: seq<Bucket<L>>, n: nat,
                          b: Bucket<L>)
    requires AllOk(names, contents, buckets) && n < |buckets| && b.used == buckets[n].used
    requires |b.entries| == 2 * |buckets[n].entries| && |buckets[n].entries| < MAXIMUM_ENTRIES
    requires b.entries[..|buckets[n].entries|] == buckets[n].entries
    ensures AllOk(names, contents, buckets[n := b])
  {
    hide BucketOk;
    Grown(names, contents, buckets[n], b.entries, n, |buckets|);
  }

  lemma OkShape<L>(names: map<nat, seq<Byte>>, contents: map<seq<Byte>, L>, buckets: seq<Bucket<L>>, n: nat)
    requires AllOk(names, contents, buckets) && n < |buckets|
    ensures |buckets[n].entries| in {4, 8, 16} && buckets[n].Fine()
  {
    hide Hash;
    assert BucketOk(names, contents, buckets[n], n, |buckets|);
  }

  /** The room in all buckets together. */
  function Capacity<L>(buckets: seq<Bucket<L>>): nat {
    if buckets == [] then 0 else |buckets[0].entries| + Capacity(buckets[1..])
  }

  lemma {:induction false} CapacityUpdated<L>(buckets: seq<Bucket<L>>, n: nat, b: Bucket<L>)
    requires n < |buckets|
    ensures Capacity(buckets[n := b]) == Capacity(buckets) - |buckets[n].entries| + |b.entries|
  {
    if n > 0 {
      CapacityUpdated(buckets[1..], n - 1, b);
      assert buckets[n := b][1..] == buckets[1..][n - 1 := b];
    }
  }

  lemma {:induction false} CapacityOfNew<L>(buckets: seq<Bucket<L>>)
    requires forall b :: 0 <= b < |buckets| ==> |buckets[b].entries| == 4
    ensures Capacity(buckets) == 4 * |buckets|
  {
    if buckets != [] { CapacityOfNew(buckets[1..]); }
  }

  /** The entries in use can be read. */
  ghost predicate Readable<L>(b: Bucket<L>) {
    b.Fine() && forall i :: 0 <= i < b.used ==> Aligned(b.entries[i].offset)
  }

  /** Every slot, in use or not, holds an offset at which a name may begin: that of an entry it held before, or zero. */
  ghost predicate AllAligned<L>(buckets: seq<Bucket<L>>) {
    forall n, i :: 0 <= n < |buckets| && 0 <= i < |buckets[n].entries| ==> Aligned(buckets[n].entries[i].offset)
  }

  lemma {:induction false} SentIsSlot<L>(texts: Readings, slots: seq<Entry<L>>, j: nat, n: nat, i: nat)
    requires n > 0 && i < |Sent(texts, slots, j, n)|
    ensures Sent(texts, slots, j, n)[i] in slots
  {
    var k := |slots| - 1;
    if i < |Sent(texts, slots[..k], j, n)| { SentIsSlot(texts, slots[..k], j, n, i); }
  }

  lemma PlacedIsReadable<L>(texts: Readings, buckets: seq<Bucket<L>>, placed: seq<Bucket<L>>, j: nat)
    requires |buckets| > 0 && Placed(texts, AllSlots(buckets), placed, |buckets|) && AllAligned(buckets)
    requires j < |placed|
    ensures Readable(placed[j])
  {
    hide Aligned;
    var slots := AllSlots(buckets);
    var b, sent := placed[j], Sent(texts, slots, j, |buckets|);
    assert HoldsSent(texts, slots, b, j, |buckets|);
    forall i | 0 <= i < b.used ensures Aligned(b.entries[i].offset) {
      assert b.entries[i] == b.entries[..b.used][i];
      SentIsSlot(texts, slots, j, |buckets|, i);
      var n, k := SlotIsOfBucket(buckets, sent[i]);
    }
  }

  // ----- what a rehash does to the names stored

  /** No slot out of use reads as the name. */
  ghost predicate OnlyInUse<L>(texts: Readings, buckets: seq<Bucket<L>>, name: seq<Byte>) {
    forall b, i :: 0 <= b < |buckets| && buckets[b].used <= i < |buckets[b].entries| ==>
      !Reads(texts, buckets[b].entries[i], name)
  }

  /** A name that is stored is found after the rehash exactly when its hash does not change; the link is the right one
      unless a slot out of use reads as the name too. */
  lemma FoundAfterRehash<L>(names: map<nat, seq<Byte>>, texts: Readings, contents: map<seq<Byte>, L>,
                            buckets: seq<Bucket<L>>, placed: seq<Bucket<L>>, name: seq<Byte>)
    requires |buckets| > 0 && AllOk(names, contents, buckets) && name in contents
    requires forall o :: o in names ==> o in texts && texts[o] == names[o]
    requires forall i :: 0 <= i < |AllSlots(buckets)| ==> AllSlots(buckets)[i].offset in texts
    requires Placed(texts, AllSlots(buckets), placed, |buckets|)
    ensures var n, h := |buckets|, Hash(name, 2 * |buckets|);
            && placed[h].Fine()
            && (FirstIn(texts, placed[h].InUse(), name).Some? <==> h == Hash(name, n))
            && (h == Hash(name, n) && OnlyInUse(texts, buckets, name) ==>
                  FirstIn(texts, placed[h].InUse(), name) == Some(contents[name]))
  {
    hide Hash, Placed, AllSlots;
    var n, slots := |buckets|, AllSlots(buckets);
    LookedUpAfter(texts, slots, placed, n, name);
    var home := Hash(name, n);
    AllOkHas(names, contents, buckets, home, name);
    var i: nat :| i < buckets[home].used && Named(names, buckets[home], i, name);
    SlotIsThere(buckets, home, i);
    var k :| 0 <= k < |slots| && slots[k] == buckets[home].entries[i];
    assert Reads(texts, slots[k], name);
    if OnlyInUse(texts, buckets, name) {
      var f := FirstLink(texts, slots, name);
      var b, j := SlotIsOfBucket(buckets, slots[f]);
      assert BucketOk(names, contents, buckets[b], b, n);
    }
  }

  function Unused<L>(buckets: seq<Bucket<L>>): int {
    if buckets == [] then 0
    else
      var b := buckets[|buckets| - 1];
      Unused(buckets[..|buckets| - 1]) + |b.entries| - b.used
  }

  lemma {:induction false} AlikeConcat<L>(texts: Readings, xs: seq<Entry<L>>, ys: seq<Entry<L>>, name: seq<Byte>)
    ensures Alike(texts, xs + ys, name) == Alike(texts, xs, name) + Alike(texts, ys, name)
  {
    if ys == [] {
      assert xs + ys == xs;
    } else {
      var k := |ys| - 1;
      assert (xs + ys)[..|xs| + k] == xs + ys[..k];
      AlikeConcat(texts, xs, ys[..k], name);
    }
  }

  lemma {:induction false} UnusedAlike<L>(texts: Readings, entries: seq<Entry<L>>, used: nat)
    requires 0 in texts && used <= |entries| && forall i :: used <= i < |entries| ==> entries[i].offset == 0
    ensures Alike(texts, entries, texts[0]) >= |entries| - used
  {
    if used < |entries| { UnusedAlike(texts, entries[..|entries| - 1], used); }
  }

  lemma {:induction false} AllUnusedAlike<L>(texts: Readings, buckets: seq<Bucket<L>>)
    requires 0 in texts && forall b :: 0 <= b < |buckets| ==> buckets[b].used <= |buckets[b].entries|
    requires forall b, i :: 0 <= b < |buckets| && buckets[b].used <= i < |buckets[b].entries| ==>
               buckets[b].entries[i].offset == 0
    ensures Alike(texts, AllSlots(buckets), texts[0]) >= Unused(buckets)
  {
    if buckets != [] {
      var k := |buckets| - 1;
      AllUnusedAlike(texts, buckets[..k]);
      UnusedAlike(texts, buckets[k].entries, buckets[k].used);
      AlikeConcat(texts, AllSlots(buckets[..k]), buckets[k].entries, texts[0]);
    }
  }

  /** When the slots out of use are zeroed memory, a rehash with more than 16 of them cannot succeed. */
  lemma FreeSlotsPreventRehash<L>(texts: Readings, buckets: seq<Bucket<L>>, blocks: nat)
    requires 0 in texts && |buckets| > 0 && forall b :: 0 <= b < |buckets| ==> buckets[b].used <= |buckets[b].entries|
    requires forall b, i :: 0 <= b < |buckets| && buckets[b].used <= i < |buckets[b].entries| ==>
               buckets[b].entries[i].offset == 0
    requires Unused(buckets) > MAXIMUM_ENTRIES
    ensures !Placing(texts, AllSlots(buckets), |buckets|, blocks).Fits?
  {
    AllUnusedAlike(texts, buckets);
    ManyAlikeNeverFit(texts, AllSlots(buckets), texts[0], |buckets|, blocks);
  }

  function Enlarged<L>(b: Bucket<L>, block: seq<Entry<L>>): Bucket<L>
    requires |b.entries| <= |block|
  {
    Bucket(b.entries + block[|b.entries|..], b.used)
  }

  class DirectoryHashmap<L> {
    const strings: StringAllocator
    var buckets: seq<Bucket<L>>
    var numEntriesUsed: nat
    /** The directory as a plain map. */
    ghost var contents: map<seq<Byte>, L>

    ghost predicate Shaped()
      reads this, strings, strings.Repr()
    {
      && strings.Valid() && |buckets| > 0 && this as object !in strings.Repr()
      && forall n :: 0 <= n < |buckets| ==> Readable(buckets[n])
    }

    ghost predicate Valid()
      reads this, strings, strings.Repr()
    {
      Shaped() && AllOk(strings.names, contents, buckets)
    }

    /** The count of the room in all buckets is right. */
    ghost predicate Counted()
      reads this
    {
      numEntriesUsed == Capacity(buckets)
    }

    /** `allocate_hashmap`: every bucket begins with four entries. */
    constructor (strings: StringAllocator, blocks: seq<seq<Entry<L>>>)
      requires strings.Valid() && |blocks| > 0 && forall b :: 0 <= b < |blocks| ==> |blocks[b]| == 4
      ensures Valid() && Counted() && contents == map[] && this.strings == strings && |buckets| == |blocks|
    {
      this.strings := strings;
      buckets := seq(|blocks|, b requires 0 <= b < |blocks| => Bucket(blocks[b], 0));
      numEntriesUsed := |blocks| * 4;
      contents := map[];
      new;
      CapacityOfNew(buckets);
    }

    /** The link of the first entry in use that reads as the name. */
    ghost function Answer(n: nat, name: seq<Byte>): Option<L>
      requires n < |buckets| && buckets[n].Fine()
      reads this, strings.Repr()
    {
      FirstIn(strings.Readings(), buckets[n].InUse(), name)
    }

    /** The loop of `contains` and of `lookup`. */
    method Search(n: nat, name: seq<Byte>) returns (r: Option<L>)
      requires Shaped() && n < |buckets|
      ensures Shaped() && r == Answer(n, name)
    {
      hide Hash, strings.Valid, strings.Readings, Aligned;
      ghost var texts := strings.Readings();
      var b := buckets[n];
      assert Readable(b);
      for i := 0 to b.used
        invariant strings.Valid() && texts == strings.Readings()
        invariant FirstIn(texts, b.entries[..i], name) == None
      {
        assert b.entries[..i + 1][..i] == b.entries[..i];
        var text := strings.AsString(b.entries[i].offset);
        if text == name {
          assert b.InUse()[..i + 1] == b.entries[..i + 1];
          FirstStays(texts, b.InUse(), i + 1, name);
          return Some(b.entries[i].link);
        }
      }
      return None;
    }

    /** The first entry that reads as the name, in the bucket for it; as long as there was no rehash this is what the
        plain map has. */
    method Lookup(name: seq<Byte>) returns (r: Option<L>)
      requires Shaped()
      ensures Shaped() && r == Answer(Hash(name, |buckets|), name)
      ensures Valid() ==> r == if name in contents then Some(contents[name]) else None
    {
      hide Hash, strings.Valid, AllOk;
      var n := HashStr(name, |buckets|);
      r := Search(n, name);
      if Valid() { AnswerIsPlain(name); }
    }

    lemma AnswerIsPlain(name: seq<Byte>)
      requires Valid()
      ensures Answer(Hash(name, |buckets|), name) == if name in contents then Some(contents[name]) else None
    {
      hide Hash, strings.Valid;
      strings.NamesRead();
      hide strings.Readings;
      var n := Hash(name, |buckets|);
      assert BucketOk(strings.names, contents, buckets[n], n, |buckets|);
      PlainAnswer(strings.names, strings.Readings(), contents, buckets[n], n, |buckets|, name);
    }

    /** Moves a bucket to a block of twice the size, if there is one. */
    method Grow(n: nat, block: Option<seq<Entry<L>>>) returns (grown: bool)
      requires Shaped() && n < |buckets| && (block.Some? ==> |block.value| == 2 * |buckets[n].entries|)
      modifies this`buckets
      ensures Shaped() && grown == block.Some?
      ensures buckets == if grown then old(buckets)[n := Enlarged(old(buckets[n]), block.value)] else old(buckets)
    {
      hide strings.Valid, Aligned;
      match block {
        case None =>
          return false;
        case Some(entries) =>
          assert Readable(buckets[n]);
          buckets := buckets[n := Enlarged(buckets[n], entries)];
          return true;
      }
    }

    /** The part of `insert` after the bucket has room. */
    method InsertIn(n: nat, name: seq<Byte>, link: L, above: Option<nat>, rehashed: bool)
      returns (r: Insertion, panicked: bool, ghost o: nat)
      requires Shaped() && NulFree(name) && n < |buckets| && buckets[n].used < |buckets[n].entries|
      modifies this`buckets, strings`names, strings.Repr()
      ensures Shaped()
      ensures r == if old(Answer(n, name)).Some? then AllreadyPresent
                   else if |name| > 32 || NoSlotFor(old(strings.names), |name|) then StringReallocationRequired
                   else Success(rehashed)
      ensures panicked == (r == StringReallocationRequired && |name| > 32 && above.Some?)
      ensures !r.Success? ==> buckets == old(buckets) && strings.names == old(strings.names)
      ensures r.Success? ==>
                && LowestFree(old(strings.names), |name|, o) && strings.names == old(strings.names)[o := name]
                && buckets == old(buckets)[n := old(buckets[n]).Append(Entry(o, link))]
    {
      hide Hash, strings.Valid, Aligned, TypeOf, NulFree, NoSlotFor, FirstIn;
      o, panicked := 0, false;
      assert Readable(buckets[n]);
      var found := Search(n, name);
      if found.Some? {
        return AllreadyPresent, false, o;
      }
      var offset;
      offset, panicked := strings.Allocate(name, above);
      match offset {
        case None =>
          return StringReallocationRequired, panicked, o;
        case Some(place) =>
          o := place;
          buckets := buckets[n := buckets[n].Append(Entry(place, link))];
          return Success(rehashed), false, o;
      }
    }

    /** One slot goes to the new bucket for it, which grows first if it is full. */
    method PlaceOne(e: Entry<L>, newBuckets: seq<Bucket<L>>, ghost slots: seq<Entry<L>>, supply: Supply<L>, next: nat)
      returns (placed: seq<Bucket<L>>, last: nat, outcome: Outcome)
      requires Shaped() && Aligned(e.offset) && supply.served > 0
      requires var texts, n := strings.Readings(), |buckets|;
               && Placed(texts, slots, newBuckets, n) && next == 1 + Growths(texts, slots, n)
               && Placing(texts, slots, n, supply.served - 1).Fits?
      ensures Shaped()
      ensures var texts, n := strings.Readings(), |buckets|;
              && outcome == Placing(texts, slots + [e], n, supply.served - 1)
              && (outcome.Fits? ==> Placed(texts, slots + [e], placed, n) && last == 1 + Growths(texts, slots + [e], n))
    {
      hide Hash, Sent, Growths, Placing, StringAllocator.Valid, StringAllocator.Readings;
      ghost var texts := strings.Readings();
      PlacingOne(texts, slots, e, |buckets|, supply.served - 1);
      var text := strings.AsString(e.offset);
      var n := HashStr(text, |buckets|);
      var b := newBuckets[n];
      assert HoldsSent(texts, slots, b, n, |buckets|);
      placed, last := newBuckets, next;
      if b.IsFull() {
        if !b.CanGrow() {
          return placed, last, Overflow;
        }
        var block := supply.Block(next, 2 * |b.entries|);
        if block.None? {
          return placed, last, NoBlock;
        }
        b, last := Enlarged(b, block.value), next + 1;
      }
      PlacedOne(texts, slots, e, newBuckets, b, |buckets|);
      return newBuckets[n := b.Append(e)], last, Fits;
    }

    /** All slots of a bucket go to their new buckets, in use or not. */
    method RehashBucket(bucket: Bucket<L>, newBuckets: seq<Bucket<L>>, ghost slots: seq<Entry<L>>, supply: Supply<L>,
                        next: nat)
      returns (placed: seq<Bucket<L>>, last: nat, outcome: Outcome)
      requires Shaped() && AllAligned([bucket]) && supply.served > 0
      requires var texts, n := strings.Readings(), |buckets|;
               && Placed(texts, slots, newBuckets, n) && next == 1 + Growths(texts, slots, n)
               && Placing(texts, slots, n, supply.served - 1).Fits?
      ensures Shaped()
      ensures var texts, n, more := strings.Readings(), |buckets|, slots + bucket.entries;
              && outcome == Placing(texts, more, n, supply.served - 1)
              && (outcome.Fits? ==> Placed(texts, more, placed, n) && last == 1 + Growths(texts, more, n))
    {
      hide Placed, Growths, Placing, Readable, StringAllocator.Valid;
      ghost var texts := strings.Readings();
      placed, last, outcome := newBuckets, next, Fits;
      assert slots + bucket.entries[..0] == slots;
      for i := 0 to |bucket.entries|
        invariant Shaped() && texts == strings.Readings()
        invariant Placed(texts, slots + bucket.entries[..i], placed, |buckets|)
        invariant last == 1 + Growths(texts, slots + bucket.entries[..i], |buckets|)
        invariant Placing(texts, slots + bucket.entries[..i], |buckets|, supply.served - 1).Fits?
      {
        ghost var before := slots + bucket.entries[..i];
        assert slots + bucket.entries[..i + 1] == before + [bucket.entries[i]];
        assert [bucket][0] == bucket;
        placed, last, outcome := PlaceOne(bucket.entries[i], placed, before, supply, last);
        if !outcome.Fits? {
          StaysUnplaced(texts, slots + bucket.entries[..i + 1], bucket.entries[i + 1..], |buckets|, supply.served - 1);
          assert slots + bucket.entries[..i + 1] + bucket.entries[i + 1..] == slots + bucket.entries;
          return;
        }
      }
      assert bucket.entries[..|bucket.entries|] == bucket.entries;
      outcome := Fits;
    }

    /** All slots of all buckets go to twice as many new buckets, in `table`. */
    method RehashCore(table: seq<Entry<L>>, supply: Supply<L>)
      returns (placed: seq<Bucket<L>>, last: nat, outcome: Outcome)
      requires Shaped() && AllAligned(buckets) && supply.served > 0 && |table| >= 8 * |buckets|
      ensures Shaped()
      ensures var texts, slots, n := strings.Readings(), AllSlots(buckets), |buckets|;
              && outcome == Placing(texts, slots, n, supply.served - 1)
              && (outcome.Fits? ==> Placed(texts, slots, placed, n) && last == 1 + Growths(texts, slots, n))
    {
      hide Placed, Growths, Placing, Readable, StringAllocator.Valid, Aligned, Emptied;
      ghost var texts := strings.Readings();
      placed, last := Emptied(table, 2 * |buckets|), 1;
      NothingPlaced(texts, table, |buckets|, supply.served - 1);
      for i := 0 to |buckets|
        invariant Shaped() && texts == strings.Readings()
        invariant Placed(texts, AllSlots(buckets[..i]), placed, |buckets|)
        invariant last == 1 + Growths(texts, AllSlots(buckets[..i]), |buckets|)
        invariant Placing(texts, AllSlots(buckets[..i]), |buckets|, supply.served - 1).Fits?
      {
        ghost var before := AllSlots(buckets[..i]);
        assert buckets[..i + 1][..i] == buckets[..i];
        placed, last, outcome := RehashBucket(buckets[i], placed, before, supply, last);
        if !outcome.Fits? {
          var rest := SlotsFrom(buckets, i + 1);
          StaysUnplaced(texts, AllSlots(buckets[..i + 1]), rest, |buckets|, supply.served - 1);
          return;
        }
      }
      assert buckets[..|buckets|] == buckets;
      outcome := Fits;
    }

    lemma SlotsRead(all: seq<Bucket<L>>)
      requires AllAligned(all)
      ensures forall i :: 0 <= i < |AllSlots(all)| ==> AllSlots(all)[i].offset in strings.Readings()
    {
      hide Aligned;
      forall i | 0 <= i < |AllSlots(all)| ensures AllSlots(all)[i].offset in strings.Readings() {
        var _, _ := SlotIsOfBucket(all, AllSlots(all)[i]);
        AlignedBelow(AllSlots(all)[i].offset);
      }
    }

    /** Twice as many buckets; when there is no room for them, or one gets too full to place everything, the old ones
        stay. */
    method Rehash(supply: Supply<L>) returns (r: Insertion, next: nat, panicked: bool)
      requires Shaped()
      requires supply.room && supply.served > 0 ==> AllAligned(buckets) && 4 * |buckets| <= numEntriesUsed
      modifies this`buckets, this`numEntriesUsed
      ensures Shaped() && (!r.Success? ==> buckets == old(buckets))
      ensures !supply.room || supply.served == 0 ==>
          && r == (if supply.room then EntryReallocationRequired else BucketReallocationRequired)
          && numEntriesUsed == old(numEntriesUsed) && !panicked
      ensures supply.room && supply.served > 0 ==>
                var texts, slots, n := strings.Readings(), AllSlots(old(buckets)), |old(buckets)|;
                && numEntriesUsed == 2 * old(numEntriesUsed)
                && match Placing(texts, slots, n, supply.served - 1)
                   case Overflow => panicked && !r.Success?
                   case NoBlock => !panicked && r == EntryReallocationRequired
                   case Fits =>
                     && !panicked && r == Success(true)
                     && Placed(texts, slots, buckets, n) && next == 1 + Growths(texts, slots, n)
    {
      hide Placed, Growths, Placing, Readable, StringAllocator.Valid, Aligned, AllAligned;
      next, panicked := 0, false;
      if !supply.room {
        return BucketReallocationRequired, next, panicked;
      }
      var table := supply.Block(0, 2 * numEntriesUsed);
      if table.None? {
        return EntryReallocationRequired, next, panicked;
      }
      numEntriesUsed := 2 * numEntriesUsed;
      var placed, outcome;
      placed, next, outcome := RehashCore(table.value, supply);
      if outcome.Fits? {
        PlacedTwice(strings.Readings(), AllSlots(buckets), placed, |buckets|);
        forall j | 0 <= j < |placed| ensures Readable(placed[j]) {
          PlacedIsReadable(strings.Readings(), buckets, placed, j);
        }
        buckets := placed;
        return Success(true), next, false;
      }
      return EntryReallocationRequired, next, outcome.Overflow?;
    }

    /** The bucket for the name has its 16 entries. */
    predicate Crowded(name: seq<Byte>)
      requires |buckets| > 0
      reads this
    {
      var b := buckets[Hash(name, |buckets|)];
      b.IsFull() && !b.CanGrow()
    }

    /** A full bucket that can grow does, and the room gained is counted. */
    method MakeRoom(n: nat, supply: Supply<L>) returns (room: bool)
      requires Valid() && n < |buckets| && buckets[n].Fine() && (buckets[n].IsFull() ==> buckets[n].CanGrow())
      modifies this`buckets, this`numEntriesUsed
      ensures Valid() && (old(Counted()) ==> Counted()) && |buckets| == |old(buckets)|
      ensures room == !(old(buckets[n]).IsFull() && supply.served == 0)
      ensures room ==> buckets[n].used < |buckets[n].entries|
      ensures forall m :: 0 <= m < |buckets| && m != n ==> buckets[m] == old(buckets[m])
      ensures old(buckets[n]).Fine() && buckets[n].Fine() && buckets[n].InUse() == old(buckets[n]).InUse()
      ensures var b := old(buckets[n]); var gained := if b.IsFull() && supply.served > 0 then |b.entries| else 0;
              |buckets[n].entries| == |b.entries| + gained && numEntriesUsed == old(numEntriesUsed) + gained
    {
      hide Hash, StringAllocator.Valid, Aligned, BucketOk, Capacity, AllOk;
      var b := buckets[n];
      room := true;
      if b.IsFull() {
        OkShape(strings.names, contents, buckets, n);
        room := Grow(n, supply.Block(0, 2 * |b.entries|));
        if room {
          numEntriesUsed := numEntriesUsed + |b.entries|;
          assert buckets[n].entries[..|b.entries|] == b.entries;
          AllOkAfterGrow(strings.names, contents, old(buckets), n, buckets[n]);
          CapacityUpdated(old(buckets), n, buckets[n]);
        }
      }
    }

    /** Inserts a link in a bucket with room, and in the plain map. */
    method InsertValid(n: nat, name: seq<Byte>, link: L, above: Option<nat>)
      returns (r: Insertion, panicked: bool, ghost o: nat)
      requires Valid() && NulFree(name) && n < |buckets| && n == Hash(name, |buckets|)
      requires buckets[n].used < |buckets[n].entries|
      modifies this`buckets, this`contents, strings`names, strings.Repr()
      ensures Valid() && |buckets| == |old(buckets)| && (old(Counted()) ==> Counted())
      ensures r == if name in old(contents) then AllreadyPresent
                   else if |name| > 32 || NoSlotFor(old(strings.names), |name|) then StringReallocationRequired
                   else Success(false)
      ensures panicked == (r == StringReallocationRequired && |name| > 32 && above.Some?)
      ensures contents == if r.Success? then old(contents)[name := link] else old(contents)
      ensures if r.Success?
              then LowestFree(old(strings.names), |name|, o) && strings.names == old(strings.names)[o := name]
              else strings.names == old(strings.names)
      ensures buckets == old(buckets)[n := buckets[n]] && |buckets[n].entries| == |old(buckets[n]).entries|
    {
      hide Hash, StringAllocator.Valid, Aligned, TypeOf, NulFree, NoSlotFor, FirstIn, BucketOk, Capacity, AllOk;
      hide LowestFree;
      AnswerIsPlain(name);
      r, panicked, o := InsertIn(n, name, link, above, false);
      if r.Success? {
        LowestIsFree(old(strings.names), |name|, o);
        AllOkAfterInsert(old(strings.names), o, contents, name, link, old(buckets), n);
        CapacityUpdated(old(buckets), n, buckets[n]);
        contents := contents[name := link];
      }
    }

    /** `insert` while the bucket has room or can grow: inserts a link unless the name is there. */
    method InsertPlain(name: seq<Byte>, link: L, supply: Supply<L>, above: Option<nat>)
      returns (r: Insertion, panicked: bool, ghost o: nat)
      requires Valid() && NulFree(name) && !Crowded(name)
      modifies this, strings`names, strings.Repr()
      ensures Valid() && |buckets| == |old(buckets)| && (old(Counted()) ==> Counted())
      ensures r == if old(buckets[Hash(name, |buckets|)].IsFull()) && supply.served == 0 then EntryReallocationRequired
                   else if name in old(contents) then AllreadyPresent
                   else if |name| > 32 || NoSlotFor(old(strings.names), |name|) then StringReallocationRequired
                   else Success(false)
      ensures panicked == (r == StringReallocationRequired && |name| > 32 && above.Some?)
      ensures contents == if r.Success? then old(contents)[name := link] else old(contents)
      ensures if r.Success?
              then LowestFree(old(strings.names), |name|, o) && strings.names == old(strings.names)[o := name]
              else strings.names == old(strings.names)
      ensures forall m :: 0 <= m < |buckets| && m != Hash(name, |buckets|) ==> buckets[m] == old(buckets[m])
      ensures var n := Hash(name, |buckets|); var b := old(buckets[n]);
              var gained := if b.IsFull() && supply.served > 0 then |b.entries| else 0;
              |buckets[n].entries| == |b.entries| + gained && numEntriesUsed == old(numEntriesUsed) + gained
    {
      hide Hash, StringAllocator.Valid, Aligned, TypeOf, NulFree, NoSlotFor, FirstIn, BucketOk, Capacity, AllOk;
      hide LowestFree;
      o := 0;
      var n := HashStr(name, |buckets|);
      OkShape(strings.names, contents, buckets, n);
      var room := MakeRoom(n, supply);
      if !room {
        return EntryReallocationRequired, false, o;
      }
      r, panicked, o := InsertValid(n, name, link, above);
    }

    /** The part of `insert` after a rehash: the bucket for the name is enlarged, full or not. */
    method InsertEnlarged(name: seq<Byte>, link: L, supply: Supply<L>, next: nat, length: nat, above: Option<nat>)
      returns (r: Insertion, panicked: bool, ghost o: nat)
      requires Shaped() && NulFree(name)
      modifies this`buckets, this`numEntriesUsed, strings`names, strings.Repr()
      ensures Shaped() && |buckets| == |old(buckets)|
      ensures var h := Hash(name, |buckets|);
              && r == (if next >= supply.served then EntryReallocationRequired
                       else if old(Answer(h, name)).Some? then AllreadyPresent
                       else if |name| > 32 || NoSlotFor(old(strings.names), |name|) then StringReallocationRequired
                       else Success(true))
              && (forall m :: 0 <= m < |buckets| && m != h ==> buckets[m] == old(buckets[m]))
              && old(buckets[h]).Fine() && buckets[h].Fine()
              && buckets[h].InUse() == old(buckets[h]).InUse() + (if r.Success? then [Entry(o, link)] else [])
              && |buckets[h].entries| == old(|buckets[h].entries|) * if next >= supply.served then 1 else 2
      ensures numEntriesUsed == old(numEntriesUsed) + if next >= supply.served then 0 else length
      ensures panicked == (r == StringReallocationRequired && |name| > 32 && above.Some?)
      ensures if r.Success?
              then LowestFree(old(strings.names), |name|, o) && strings.names == old(strings.names)[o := name]
              else strings.names == old(strings.names)
    {
      hide Hash, StringAllocator.Valid, StringAllocator.Readings, Aligned, NulFree, NoSlotFor, LowestFree, FirstIn;
      o := 0;
      var n := HashStr(name, |buckets|);
      var b := buckets[n];
      assert Readable(b);
      var grown := Grow(n, supply.Block(next, 2 * |b.entries|));
      if !grown {
        return EntryReallocationRequired, false, o;
      }
      assert buckets[n].InUse() == b.InUse();
      numEntriesUsed := numEntriesUsed + length;
      r, panicked, o := InsertIn(n, name, link, above, true);
    }

    /** `insert` when the bucket is full and cannot grow. A rehash that finds no run of buckets or no block for them
        still halves the count of entries. After a rehash the name is looked for in the bucket for it among the new
        ones, which is enlarged first. */
    method InsertRehashing(name: seq<Byte>, link: L, supply: Supply<L>, above: Option<nat>)
      returns (r: Insertion, panicked: bool, ghost o: nat, ghost mid: seq<Bucket<L>>)
      requires Valid() && NulFree(name) && Crowded(name)
      requires supply.room && supply.served > 0 ==> AllAligned(buckets) && 4 * |buckets| <= numEntriesUsed
      modifies this, strings`names, strings.Repr()
      ensures Shaped() && contents == old(contents) && (r.Success? ==> r.rehashed)
      ensures !r.Success? ==> strings.names == old(strings.names)
      ensures !supply.room || supply.served == 0 ==>
                && r == (if supply.room then EntryReallocationRequired else BucketReallocationRequired) && !panicked
                && Valid() && buckets == old(buckets) && numEntriesUsed == old(numEntriesUsed) / 2
      ensures supply.room && supply.served > 0 ==>
                var texts, slots, n := old(strings.Readings()), AllSlots(old(buckets)), |old(buckets)|;
                match Placing(texts, slots, n, supply.served - 1)
                case Overflow => panicked
                case NoBlock =>
                  && r == EntryReallocationRequired && !panicked
                  && Valid() && buckets == old(buckets) && numEntriesUsed == old(numEntriesUsed)
                case Fits =>
                  var h := Hash(name, 2 * n);
                  && Placed(texts, slots, mid, n) && |buckets| == |mid| && mid[h].Fine() && buckets[h].Fine()
                  && r == (if Growths(texts, slots, n) + 1 == supply.served then EntryReallocationRequired
                           else if h == Hash(name, n) && FirstIn(texts, slots, name).Some? then AllreadyPresent
                           else if |name| > 32 || NoSlotFor(old(strings.names), |name|) then StringReallocationRequired
                           else Success(true))
                  && panicked == (r == StringReallocationRequired && |name| > 32 && above.Some?)
                  && (r.Success? ==>
                        LowestFree(old(strings.names), |name|, o) && strings.names == old(strings.names)[o := name])
                  && (forall m :: 0 <= m < |mid| && m != h ==> buckets[m] == mid[m])
                  && buckets[h].InUse() == mid[h].InUse() + (if r.Success? then [Entry(o, link)] else [])
                  && var gained := Growths(texts, slots, n) + 1 < supply.served;
                  && |buckets[h].entries| == |mid[h].entries| * (if gained then 2 else 1)
                  && numEntriesUsed == 2 * old(numEntriesUsed) + if gained then MAXIMUM_ENTRIES else 0
    {
      hide Hash, StringAllocator.Valid, StringAllocator.Readings, Aligned, NulFree, NoSlotFor, LowestFree;
      hide FirstIn, AllOk, AllAligned, Placing, Placed, Growths, AllSlots, Readable, NoneCrowded;
      o, mid := 0, buckets;
      var n := HashStr(name, |buckets|);
      var length := |buckets[n].entries|;
      var next;
      r, next, panicked := Rehash(supply);
      if panicked {
        return;
      }
      if !r.Success? {
        numEntriesUsed := numEntriesUsed / 2;
        return;
      }
      mid := buckets;
      ghost var texts := strings.Readings();
      PlacedTwice(texts, AllSlots(old(buckets)), mid, |old(buckets)|);
      SlotsRead(old(buckets));
      FitsExactly(texts, AllSlots(old(buckets)), |old(buckets)|, supply.served - 1);
      LookedUpAfter(texts, AllSlots(old(buckets)), mid, |old(buckets)|, name);
      r, panicked, o := InsertEnlarged(name, link, supply, next, length, above);
    }

    /** Visits every entry of the directory exactly once. */
    method ForEach() returns (visited: seq<(seq<Byte>, L)>)
      requires Valid()
      ensures Valid() && Distinct(visited)
      ensures forall k :: 0 <= k < |visited| ==> visited[k].0 in contents && contents[visited[k].0] == visited[k].1
      ensures forall name :: name in contents ==> (name, contents[name]) in visited
    {
      hide Hash, strings.Valid, Distinct, BucketOk, Visited, Entries;
      visited := [];
      NothingVisited(contents, |buckets|);
      for n := 0 to |buckets|
        invariant Valid() && Visited(contents, visited, n, |buckets|)
      {
        var more := VisitBucket(n);
        OneMoreBucket(strings.names, contents, buckets[n], visited, n, |buckets|);
        visited := visited + more;
      }
      AllVisited(contents, visited, |buckets|);
    }

    /** The inner loop of `for_each`. */
    method VisitBucket(n: nat) returns (more: seq<(seq<Byte>, L)>)
      requires Valid() && n < |buckets|
      ensures Valid()
      ensures buckets[n].used <= |buckets[n].entries|
          && forall i :: 0 <= i < buckets[n].used ==> buckets[n].entries[i].offset in strings.names
      ensures more == Entries(strings.names, buckets[n], buckets[n].used)
    {
      hide Hash, strings.Valid, BucketOk;
      more := [];
      OkParts(strings.names, contents, buckets[n], n, |buckets|);
      for i := 0 to buckets[n].used
        invariant strings.Valid() && more == Entries(strings.names, buckets[n], i)
      {
        var name := strings.AsString(buckets[n].entries[i].offset);
        more := more + [(name, buckets[n].entries[i].link)];
      }
    }
  }
}
