/** The name stores of the ACPI namespace (aml/name_system.rs): association lists of four-byte names,
    kept in shared arrays, each in at most four fragments. */
module Names {
  import opened Memory
  import opened Texts

  const SYSTEMS_CAPACITY: nat := 1024
  const BUCKETS_CAPACITY: nat := 1024
  const ENTRIES_CAPACITY: nat := 1024
  const NAMES_CAPACITY: nat := 0x1000

  /** A run of entries. The count is a byte. */
  datatype Bucket = Bucket(offset: nat, count: nat) {
    function End(): nat { offset + count }
  }

  datatype Entry = Entry(name: nat, offset: nat)

  type Fragments = f: seq<nat> | |f| == 4 witness [0, 0, 0, 0]

  const NO_FRAGMENTS: Fragments := [0, 0, 0, 0]

  type Items<V> = seq<(Name, V)>

  // ----- association lists

  /** The value of the first item with this name. */
  ghost function FirstMatch<V>(items: Items<V>, name: Name): (r: Option<V>)
    ensures r.None? <==> forall k :: 0 <= k < |items| ==> items[k].0 != name
  {
    if items == [] then None
    else if items[0].0 == name then Some(items[0].1)
    else FirstMatch(items[1..], name)
  }

  lemma {:induction false} FirstMatchConcat<V>(xs: Items<V>, ys: Items<V>, name: Name)
    ensures FirstMatch(xs + ys, name) == if FirstMatch(xs, name).Some? then FirstMatch(xs, name)
        else FirstMatch(ys, name)
  {
    if xs == [] {
      assert xs + ys == ys;
    } else {
      assert (xs + ys)[1..] == xs[1..] + ys;
      FirstMatchConcat(xs[1..], ys, name);
    }
  }

  lemma {:induction false} FirstMatchAt<V>(xs: Items<V>, e: nat, name: Name)
    requires e < |xs| && xs[e].0 == name && forall k :: 0 <= k < e ==> xs[k].0 != name
    ensures FirstMatch(xs, name) == Some(xs[e].1)
  {
    if e > 0 { FirstMatchAt(xs[1..], e - 1, name); }
  }

  ghost function Piece<V>(items: Items<V>, buckets: seq<Bucket>, fragment: nat): Items<V> {
    if 0 < fragment < |buckets| && buckets[fragment].End() <= |items|
    then items[buckets[fragment].offset..buckets[fragment].End()]
    else []
  }

  lemma PieceIs<V>(items: Items<V>, buckets: seq<Bucket>, b: nat)
    requires 0 < b < |buckets| && buckets[b].End() <= |items|
    ensures |Piece(items, buckets, b)| == buckets[b].count
    ensures forall k :: 0 <= k < buckets[b].count ==> Piece(items, buckets, b)[k] == items[buckets[b].offset + k]
  {
    hide FirstMatch, Gathered;
    var piece, o := items[buckets[b].offset..buckets[b].End()], buckets[b].offset;
    assert Piece(items, buckets, b) == piece;
    forall k | 0 <= k < buckets[b].count ensures piece[k] == items[o + k] {}
  }

  /** The items of the first `n` fragments. */
  ghost function Gathered<V>(items: Items<V>, buckets: seq<Bucket>, f: Fragments, n: nat): Items<V>
    requires n <= 4
  {
    if n == 0 then [] else Gathered(items, buckets, f, n - 1) + Piece(items, buckets, f[n - 1])
  }

  lemma {:induction false} GatheredSame<V>(items: Items<V>, buckets: seq<Bucket>, items': Items<V>,
                                           buckets': seq<Bucket>, f: Fragments, n: nat)
    requires n <= 4
    requires forall i :: 0 <= i < n ==> Piece(items, buckets, f[i]) == Piece(items', buckets', f[i])
    ensures Gathered(items, buckets, f, n) == Gathered(items', buckets', f, n)
  {
    hide Piece;
    if n > 0 { GatheredSame(items, buckets, items', buckets', f, n - 1); }
  }

  lemma {:induction false} GatheredEmpty<V>(items: Items<V>, buckets: seq<Bucket>, f: Fragments, i: nat, n: nat)
    requires i <= n <= 4 && forall j :: i <= j < n ==> f[j] == 0
    ensures Gathered(items, buckets, f, n) == Gathered(items, buckets, f, i)
  {
    hide Piece;
    if i < n {
      GatheredEmpty(items, buckets, f, i, n - 1);
      NoPiece(items, buckets);
    }
  }

  /** What the first fragments hold is found whatever follows. */
  lemma {:induction false} GatheredFound<V>(items: Items<V>, buckets: seq<Bucket>, f: Fragments, i: nat, name: Name)
    requires i <= 4 && FirstMatch(Gathered(items, buckets, f, i), name).Some?
    ensures FirstMatch(Gathered(items, buckets, f, 4), name) == FirstMatch(Gathered(items, buckets, f, i), name)
    decreases 4 - i
  {
    hide Piece, FirstMatch;
    if i < 4 {
      FirstMatchConcat(Gathered(items, buckets, f, i), Piece(items, buckets, f[i]), name);
      GatheredStep(items, buckets, f, i);
      GatheredFound(items, buckets, f, i + 1, name);
    }
  }

  lemma NewListEmpty<V>(items: Items<V>, buckets: seq<Bucket>, f: Fragments)
    requires f[0] < |buckets| && buckets[f[0]] == Bucket(|items|, 0) && f[1] == f[2] == f[3] == 0
    ensures Gathered(items, buckets, f, 4) == []
  {
    hide Gathered;
    GatheredEmpty(items, buckets, f, 1, 4);
    GatheredStep(items, buckets, f, 0);
    GatheredNone(items, buckets, f);
  }

  lemma GatheredNone<V>(items: Items<V>, buckets: seq<Bucket>, f: Fragments)
    ensures Gathered(items, buckets, f, 0) == []
  {
  }

  lemma NoPiece<V>(items: Items<V>, buckets: seq<Bucket>)
    ensures Piece(items, buckets, 0) == []
  {
  }

  /** One item appended to the last used fragment, or to the first unused one. */
  lemma GatheredMore<V>(items: Items<V>, buckets: seq<Bucket>, f: Fragments, items': Items<V>,
                                           buckets': seq<Bucket>, f': Fragments, i: nat, item: (Name, V))
    requires i < 4
        && (forall j :: 0 <= j < i ==> f'[j] == f[j] && Piece(items', buckets', f[j]) == Piece(items, buckets, f[j]))
    requires Piece(items', buckets', f'[i]) == Piece(items, buckets, f[i]) + [item]
    requires forall j :: i < j < 4 ==> f[j] == f'[j] == 0
    ensures Gathered(items', buckets', f', 4) == Gathered(items, buckets, f, 4) + [item]
  {
    hide Piece, Gathered;
    GatheredEmpty(items, buckets, f, i + 1, 4);
    GatheredEmpty(items', buckets', f', i + 1, 4);
    GatheredStep(items, buckets, f, i);
    GatheredStep(items', buckets', f', i);
    GatheredSame(items, buckets, items', buckets', f, i);
    GatheredPrefix(items', buckets', f, f', i);
  }

  lemma GatheredStep<V>(items: Items<V>, buckets: seq<Bucket>, f: Fragments, i: nat)
    requires i < 4
    ensures Gathered(items, buckets, f, i + 1) == Gathered(items, buckets, f, i) + Piece(items, buckets, f[i])
  {
  }

  lemma {:induction false} GatheredPrefix<V>(items: Items<V>, buckets: seq<Bucket>, f: Fragments, f': Fragments, n: nat)
    requires n <= 4 && forall j :: 0 <= j < n ==> f'[j] == f[j]
    ensures Gathered(items, buckets, f', n) == Gathered(items, buckets, f, n)
  {
    if n > 0 { GatheredPrefix(items, buckets, f, f', n - 1); }
  }

  // ----- the arrays

  ghost function Named(text: seq<Byte>, n: nat): Name
    requires 4 * n + 4 <= |text|
  {
    text[4 * n..4 * n + 4]
  }

  ghost predicate AllDifferent(text: seq<Byte>) {
    forall i, j :: 0 <= i < j < |text| / 4 ==> Named(text, i) != Named(text, j)
  }

  ghost predicate InStore(text: seq<Byte>, name: Name) {
    exists i :: 0 <= i < |text| / 4 && Named(text, i) == name
  }

  lemma AllDifferentMore(text: seq<Byte>, name: Name)
    requires AllDifferent(text) && !InStore(text, name) && |text| % 4 == 0
    ensures AllDifferent(text + name) && Named(text + name, |text| / 4) == name
  {
    forall k | 0 <= k < |text| / 4 ensures Named(text + name, k) == Named(text, k) {}
  }

  /** All entries, in the order in which they were added, whatever their system. */
  ghost function Decoded<V>(text: seq<Byte>, entries: seq<Entry>, memory: seq<V>): (items: Items<V>)
    requires |memory| == |entries|
    requires forall e :: 0 <= e < |entries| ==> 4 * entries[e].name + 4 <= |text| && entries[e].offset == e
    ensures |items| == |entries|
  {
    seq(|entries|, e requires 0 <= e < |entries| => (Named(text, entries[e].name), memory[e]))
  }

  lemma DecodedAgain<V>(text: seq<Byte>, text': seq<Byte>, entries: seq<Entry>, memory: seq<V>)
    requires text <= text' && |memory| == |entries|
    requires forall e :: 0 <= e < |entries| ==> 4 * entries[e].name + 4 <= |text| && entries[e].offset == e
    ensures Decoded(text', entries, memory) == Decoded(text, entries, memory)
  {
    forall n: nat | 4 * n + 4 <= |text| ensures Named(text', n) == Named(text, n) {
      assert text == text'[..|text|];
    }
  }

  lemma DecodedMore<V>(text: seq<Byte>, entries: seq<Entry>, memory: seq<V>, n: nat, v: V)
    requires |memory| == |entries| && 4 * n + 4 <= |text|
    requires forall e :: 0 <= e < |entries| ==> 4 * entries[e].name + 4 <= |text| && entries[e].offset == e
    ensures Decoded(text, entries + [Entry(n, |entries|)], memory + [v])
        == Decoded(text, entries, memory) + [(Named(text, n), v)]
  {
    hide Named;
  }

  /** Every entry lies in exactly one bucket, and every bucket consists of entries. */
  ghost predicate Partition(buckets: seq<Bucket>, home: seq<nat>) {
    && |buckets| > 0 && buckets[0] == Bucket(0, 0)
    && (forall b :: 0 <= b < |buckets| ==> buckets[b].End() <= |home| && buckets[b].count < 256)
    && (forall b, e :: 0 <= b < |buckets| && 0 <= e < |home| ==>
      (buckets[b].offset <= e < buckets[b].End() <==> home[e] == b))
    && (forall e :: 0 <= e < |home| ==> 0 < home[e] < |buckets|)
  }

  /** No bucket has two owners; the fragments of a system are used from the front; only the last may grow. */
  ghost predicate Owned(systems: seq<Fragments>, buckets: seq<Bucket>, slots: seq<(nat, nat)>, size: nat) {
    && |slots| == |buckets|
    && (forall s, i :: 0 <= s < |systems| && 0 <= i < 4 && systems[s][i] != 0 ==>
          systems[s][i] < |buckets| && slots[systems[s][i]] == (s, i))
    && (forall s, i, j :: 0 <= s < |systems| && 0 <= i < j < 4 && systems[s][j] != 0 ==>
          systems[s][i] != 0 && systems[s][i] < |buckets| && buckets[systems[s][i]].End() < size)
  }

  /** A bucket that ends with the last entry takes the next one too. */
  lemma PartitionGrows(buckets: seq<Bucket>, home: seq<nat>, b: nat)
    requires Partition(buckets, home) && 0 < b < |buckets| && buckets[b].End() == |home| && buckets[b].count < 255
    ensures Partition(buckets[b := Bucket(buckets[b].offset, buckets[b].count + 1)], home + [b])
  {
  }

  lemma PartitionExtends(buckets: seq<Bucket>, home: seq<nat>)
    requires Partition(buckets, home)
    ensures Partition(buckets + [Bucket(|home|, 0)], home)
    ensures Partition(buckets + [Bucket(|home|, 1)], home + [|buckets|])
  {
  }

  // ----- one more entry

  /** The fragments `f` of a system become `f'` to take entry number `size`: fragment `i` grows by one, or
      is a new bucket holding just that entry. */
  ghost predicate Extended(f: Fragments, buckets: seq<Bucket>, size: nat,
                           f': Fragments, buckets': seq<Bucket>, i: nat) {
    && i < 4 && f' == f[i := f'[i]] && (forall j :: i < j < 4 ==> f[j] == 0) && (forall j :: 0 <= j < i ==> f[j] != 0)
    && if f[i] != 0
       then && f'[i] == f[i] < |buckets| && buckets[f[i]].End() == size
            && buckets' == buckets[f[i] := Bucket(buckets[f[i]].offset, buckets[f[i]].count + 1)]
       else f'[i] == |buckets| && buckets' == buckets + [Bucket(size, 1)]
  }

  lemma OwnedGrows(systems: seq<Fragments>, buckets: seq<Bucket>, slots: seq<(nat, nat)>, size: nat, s: nat, i: nat)
    requires Owned(systems, buckets, slots, size) && s < |systems| && i < 4 && systems[s][i] != 0
        && buckets[systems[s][i]].End() == size
    ensures var b := systems[s][i]; var buckets' := buckets[b := Bucket(buckets[b].offset, buckets[b].count + 1)];
            Owned(systems, buckets', slots, size + 1) && Extended(systems[s], buckets, size, systems[s], buckets', i)
  {
  }

  lemma OwnedExtends(systems: seq<Fragments>, buckets: seq<Bucket>,
                     home: seq<nat>, slots: seq<(nat, nat)>, s: nat, i: nat)
    requires Partition(buckets, home) && Owned(systems, buckets, slots, |home|) && s < |systems| && i < 4
    requires systems[s][i] == 0 && forall j :: 0 <= j < i ==> systems[s][j] != 0
    ensures var f' := systems[s][i := |buckets|]; var buckets' := buckets + [Bucket(|home|, 1)];
            && Owned(systems[s := f'], buckets', slots + [(s, i)], |home| + 1)
            && Extended(systems[s], buckets, |home|, f', buckets', i)
  {
    hide Partition;
    var f', b' := systems[s][i := |buckets|], Bucket(|home|, 1);
    var systems', buckets', slots' := systems[s := f'], buckets + [b'], slots + [(s, i)];
    UsedFromFront(systems, buckets, slots, |home|, s, i);
    forall t, j | 0 <= t < |systems'| && 0 <= j < 4 && systems'[t][j] != 0
      ensures systems'[t][j] < |buckets'| && slots'[systems'[t][j]] == (t, j)
    {
      if !(t == s && j == i) {
        assert systems'[t][j] == systems[t][j];
        assert systems[t][j] < |buckets| && slots[systems[t][j]] == (t, j);
      }
    }
    BucketsEnd(buckets, home);
    forall t, j, k | 0 <= t < |systems'| && 0 <= j < k < 4 && systems'[t][k] != 0
      ensures systems'[t][j] != 0 && systems'[t][j] < |buckets'| && buckets'[systems'[t][j]].End() < |home| + 1
    {
      if t == s && k == i {
        assert systems'[t][j] == systems[s][j] != 0;
        assert slots[systems[s][j]] == (s, j);
      } else {
        assert systems'[t][k] == systems[t][k] && systems'[t][j] == systems[t][j];
      }
      assert buckets'[systems'[t][j]] == buckets[systems'[t][j]];
    }
  }

  lemma UsedFromFront(systems: seq<Fragments>, buckets: seq<Bucket>, slots: seq<(nat, nat)>, size: nat, s: nat, i: nat)
    requires Owned(systems, buckets, slots, size) && s < |systems| && i < 4 && systems[s][i] == 0
    ensures forall j :: i < j < 4 ==> systems[s][j] == 0
  {
  }

  lemma BucketsEnd(buckets: seq<Bucket>, home: seq<nat>)
    requires Partition(buckets, home)
    ensures |buckets| > 0 && forall b :: 0 <= b < |buckets| ==> buckets[b].End() <= |home|
  {
  }

  /** A new system owns a new bucket; what a system of that number owned before is given up. */
  lemma OwnedByNew(systems: seq<Fragments>, buckets: seq<Bucket>, home: seq<nat>, slots: seq<(nat, nat)>, s: nat)
    requires Partition(buckets, home) && Owned(systems, buckets, slots, |home|) && s < |systems|
    ensures Owned(systems[s := [|buckets|, 0, 0, 0]], buckets + [Bucket(|home|, 0)], slots + [(s, 0)], |home|)
  {
  }

  lemma OldTails(systems: seq<Fragments>, buckets: seq<Bucket>, slots: seq<(nat, nat)>, size: nat, b: Bucket)
    requires Owned(systems, buckets, slots, size)
    ensures forall t :: 0 <= t < |systems| ==> TailOf(systems[t], buckets + [b]) == TailOf(systems[t], buckets)
  {
    forall t | 0 <= t < |systems| ensures TailOf(systems[t], buckets + [b]) == TailOf(systems[t], buckets) {
      var n := UsedOf(systems[t]);
      if n > 0 { assert systems[t][n - 1] != 0; }
    }
  }

  lemma OldPieces<V>(items: Items<V>, systems: seq<Fragments>, buckets: seq<Bucket>,
                     slots: seq<(nat, nat)>, b: Bucket, t: nat)
    requires Owned(systems, buckets, slots, |items|) && t < |systems|
    ensures Gathered(items, buckets + [b], systems[t], 4) == Gathered(items, buckets, systems[t], 4)
  {
    hide Gathered;
    NoPiece(items, buckets);
    NoPiece(items, buckets + [b]);
    GatheredSame(items, buckets, items, buckets + [b], systems[t], 4);
  }

  /** How far a system has come: how many fragments it uses, where the last of them ends, and how long that one is. */
  datatype Tail = Tail(used: nat, end: nat, count: nat) {
    /** The next entry, number `size`, goes to the same fragment. */
    predicate Continues(size: nat) { used > 0 && end == size }

    /** There is no place for it. */
    predicate Stuck(size: nat) { if Continues(size) then count == 255 else used == 4 }

    function Longer(size: nat): Tail {
      if Continues(size) then Tail(used, size + 1, count + 1) else Tail(used + 1, size + 1, 1)
    }
  }

  function UsedOf(f: Fragments): nat {
    if f[0] == 0 then 0 else if f[1] == 0 then 1 else if f[2] == 0 then 2 else if f[3] == 0 then 3 else 4
  }

  function TailOf(f: Fragments, buckets: seq<Bucket>): Tail {
    var n := UsedOf(f);
    if n == 0 || f[n - 1] >= |buckets| then Tail(n, 0, 0) else Tail(n, buckets[f[n - 1]].End(), buckets[f[n - 1]].count)
  }

  /** Only the last fragment can be continued. */
  lemma LastContinues(systems: seq<Fragments>, buckets: seq<Bucket>, home: seq<nat>, slots: seq<(nat, nat)>, s: nat)
    requires Partition(buckets, home) && Owned(systems, buckets, slots, |home|) && s < |systems|
    ensures var f, t := systems[s], TailOf(systems[s], buckets);
            && t.used <= 4
            && (forall i :: 0 <= i < 4 ==> f[i] < |buckets| && (f[i] != 0 <==> i < t.used))
            && (forall i :: 0 <= i < 4 && f[i] != 0 && buckets[f[i]].End() == |home| ==> i == t.used - 1)
            && (t.used > 0 ==> buckets[f[t.used - 1]].End() == t.end && buckets[f[t.used - 1]].count == t.count < 256)
  {
    var f := systems[s];
    forall i | 0 <= i < 4 ensures f[i] < |buckets| {
      if f[i] != 0 { assert slots[f[i]] == (s, i); }
    }
  }

  lemma TailExtended(systems: seq<Fragments>, buckets: seq<Bucket>, home: seq<nat>, slots: seq<(nat, nat)>, s: nat,
                     f': Fragments, buckets': seq<Bucket>, i: nat)
    requires Partition(buckets, home) && Owned(systems, buckets, slots, |home|) && s < |systems|
    requires Extended(systems[s], buckets, |home|, f', buckets', i)
    requires systems[s][i] != 0 <==> TailOf(systems[s], buckets).Continues(|home|)
    ensures var t := TailOf(systems[s], buckets);
            && TailOf(f', buckets') == t.Longer(|home|)
            && |buckets'| == |buckets| + if t.Continues(|home|) then 0 else 1
    ensures forall t :: 0 <= t < |systems| && t != s ==> TailOf(systems[t], buckets') == TailOf(systems[t], buckets)
  {
    hide Partition;
    LastContinues(systems, buckets, home, slots, s);
    forall t | 0 <= t < |systems| && t != s ensures TailOf(systems[t], buckets') == TailOf(systems[t], buckets) {
      var n := UsedOf(systems[t]);
      if n > 0 {
        assert systems[t][n - 1] != 0 && slots[systems[t][n - 1]] == (t, n - 1);
        if systems[s][i] != 0 { assert slots[systems[s][i]] == (s, i); }
      }
    }
  }

  /** An entry added to one system is seen by that system alone, after all its earlier ones. */
  lemma AddedToOneList<V>(items: Items<V>, systems: seq<Fragments>, buckets: seq<Bucket>, home: seq<nat>,
                          slots: seq<(nat, nat)>, s: nat, f': Fragments, buckets': seq<Bucket>, i: nat, item: (Name, V))
    requires |home| == |items| && s < |systems| && Partition(buckets, home) && Owned(systems, buckets, slots, |items|)
    requires Extended(systems[s], buckets, |items|, f', buckets', i)
    ensures Gathered(items + [item], buckets', f', 4) == Gathered(items, buckets, systems[s], 4) + [item]
    ensures forall t :: 0 <= t < |systems| && t != s ==>
              Gathered(items + [item], buckets', systems[t], 4) == Gathered(items, buckets, systems[t], 4)
  {
    hide Gathered, Piece, Extended, Partition;
    PieceMore(items, buckets, home, systems[s], f', buckets', i, item);
    forall c | 0 <= c <= |buckets| && c != f'[i]
      ensures Piece(items + [item], buckets', c) == Piece(items, buckets, c) {
      PieceKept(items, buckets, home, systems[s], f', buckets', i, item, c);
    }
    GatheredMore(items, buckets, systems[s], items + [item], buckets', f', i, item);
    forall t | 0 <= t < |systems| && t != s
      ensures Gathered(items + [item], buckets', systems[t], 4) == Gathered(items, buckets, systems[t], 4)
    {
      forall k | 0 <= k < 4 ensures systems[t][k] <= |buckets| && systems[t][k] != f'[i] {
        if systems[t][k] != 0 && systems[s][i] != 0 {
          assert slots[systems[t][k]] == (t, k) && slots[systems[s][i]] == (s, i);
        }
      }
      GatheredSame(items, buckets, items + [item], buckets', systems[t], 4);
    }
  }

  lemma PieceMore<V>(items: Items<V>, buckets: seq<Bucket>, home: seq<nat>, f: Fragments,
                     f': Fragments, buckets': seq<Bucket>, i: nat, item: (Name, V))
    requires |home| == |items| && Partition(buckets, home) && Extended(f, buckets, |items|, f', buckets', i)
    ensures i < 4 && Piece(items + [item], buckets', f'[i]) == Piece(items, buckets, f[i]) + [item]
    ensures f' == f[i := f'[i]] && (forall j :: i < j < 4 ==> f[j] == 0) && (f[i] == 0 || f[i] == f'[i])
    ensures 0 < f'[i] <= |buckets| && (f[i] == 0 ==> f'[i] == |buckets|)
  {
    hide Partition, Piece;
    BucketsEnd(buckets, home);
    if f[i] != 0 {
      PieceGrows(items, buckets, f[i], item);
    } else {
      PieceStarts(items, buckets, item);
      NoPiece(items, buckets);
    }
  }

  lemma PieceGrows<V>(items: Items<V>, buckets: seq<Bucket>, b: nat, item: (Name, V))
    requires 0 < b < |buckets| && buckets[b].End() == |items|
    ensures Piece(items + [item], buckets[b := Bucket(buckets[b].offset, buckets[b].count + 1)], b)
        == Piece(items, buckets, b) + [item]
  {
    var o, n := buckets[b].offset, |items|;
    assert (items + [item])[o..n + 1] == items[o..n] + [item];
  }

  lemma PieceStarts<V>(items: Items<V>, buckets: seq<Bucket>, item: (Name, V))
    requires |buckets| > 0
    ensures Piece(items + [item], buckets + [Bucket(|items|, 1)], |buckets|) == [item]
  {
    assert (items + [item])[|items|..|items| + 1] == [item];
  }

  lemma PieceKept<V>(items: Items<V>, buckets: seq<Bucket>, home: seq<nat>, f: Fragments,
                     f': Fragments, buckets': seq<Bucket>, i: nat, item: (Name, V), c: nat)
    requires |home| == |items| && Partition(buckets, home) && Extended(f, buckets, |items|, f', buckets', i)
    requires c <= |buckets| && c != f'[i]
    ensures Piece(items + [item], buckets', c) == Piece(items, buckets, c)
  {
    if 0 < c < |buckets| {
      assert (items + [item])[buckets[c].offset..buckets[c].End()] == items[buckets[c].offset..buckets[c].End()];
    }
  }

  // "_HID", "_UID", "_CID", "_CRS", "_PRS", "_ADR"
  const HID: Name := [0x5F, 0x48, 0x49, 0x44]
  const UID: Name := [0x5F, 0x55, 0x49, 0x44]
  const CID: Name := [0x5F, 0x43, 0x49, 0x44]
  const CRS: Name := [0x5F, 0x43, 0x52, 0x53]
  const PRS: Name := [0x5F, 0x50, 0x52, 0x53]
  const ADR: Name := [0x5F, 0x41, 0x44, 0x52]

  const INITIAL_NAMES: set<Name> := {HID, UID, CID, CRS, PRS, ADR}

  lemma InitialNamesDiffer()
    ensures HID != UID && HID != CID && HID != CRS && HID != PRS && HID != ADR && UID != CID && UID != CRS && UID != PRS
    ensures UID != ADR && CID != CRS && CID != PRS && CID != ADR && CRS != PRS && CRS != ADR && PRS != ADR
    ensures |INITIAL_NAMES| == 6
  {
    assert HID[1] == 0x48 && UID[1] == 0x55 && CID[1] == 0x43 && CRS[1] == 0x43 && PRS[1] == 0x50 && ADR[1] == 0x41;
    assert CID[2] == 0x49 && CRS[2] == 0x52;
  }

  /** Appends a segment to a store of segments. */
  method PushName(names: Text, name: Name) returns (panicked: bool)
    requires names.Valid() && names.length % 4 == 0
    modifies names, names.buffer
    ensures names.Valid() && panicked == (old(names.length) + 4 > names.buffer.Length)
    ensures panicked ==> names.Bytes() == old(names.Bytes())
    ensures !panicked ==> names.length == old(names.length) + 4 && Named(names.Bytes(), old(names.length) / 4) == name
    ensures !panicked ==>
        forall k :: 0 <= k < old(names.length) / 4 ==> Named(names.Bytes(), k) == Named(old(names.Bytes()), k)
  {
    panicked := names.PushBackRaw(name);
  }

  method PushInitialNames(names: Text)
    requires names.Valid() && names.length == 0 && names.buffer.Length == NAMES_CAPACITY
    modifies names, names.buffer
    ensures names.Valid() && names.length == 24 && AllDifferent(names.Bytes())
    ensures forall name :: InStore(names.Bytes(), name) <==> name in INITIAL_NAMES
  {
    hide Named;
    InitialNamesDiffer();
    var _ := PushName(names, HID);
    var _ := PushName(names, UID);
    var _ := PushName(names, CID);
    var _ := PushName(names, CRS);
    var _ := PushName(names, PRS);
    var _ := PushName(names, ADR);
    ghost var t := names.Bytes();
    assert Named(t, 0) == HID && Named(t, 1) == UID && Named(t, 2) == CID && Named(t, 3) == CRS && Named(t, 4) == PRS
      && Named(t, 5) == ADR;
  }

  class NameSystem<V> {
    const names: Text
    /** The whole zeroed table; systems from `numSystems` on have not been handed out. */
    var systems: seq<Fragments>
    var numSystems: nat
    var buckets: seq<Bucket>
    var entries: seq<Entry>
    var memory: seq<V>
    /** The bucket of each entry, and the system and fragment of each bucket. */
    ghost var home: seq<nat>
    ghost var slots: seq<(nat, nat)>

    ghost predicate NamesOk()
      reads this, names, names.buffer
    {
      && names.Valid() && names.length % 4 == 0 && names.buffer.Length == NAMES_CAPACITY
      && AllDifferent(names.Bytes())
    }

    ghost predicate EntriesOk()
      requires names.Valid()
      reads this, names, names.buffer
    {
      && |entries| == |memory| == |home|
      && forall e :: 0 <= e < |entries| ==> 4 * entries[e].name + 4 <= names.length && entries[e].offset == e
    }

    ghost predicate Valid()
      reads this, names, names.buffer
    {
      && NamesOk() && EntriesOk()
      && numSystems <= |systems| == SYSTEMS_CAPACITY
      && (forall s :: numSystems < s < |systems| ==> systems[s] == NO_FRAGMENTS)
      && Partition(buckets, home) && Owned(systems, buckets, slots, |entries|)
    }

    ghost function Everything(): Items<V>
      requires names.Valid() && EntriesOk()
      reads this, names, names.buffer
    {
      Decoded(names.Bytes(), entries, memory)
    }

    /** The association list of a system. */
    ghost function List(s: nat): Items<V>
      requires names.Valid() && EntriesOk() && s < |systems|
      reads this, names, names.buffer
    {
      Gathered(Everything(), buckets, systems[s], 4)
    }

    function TailAt(s: nat): Tail
      requires s < |systems|
      reads this
    {
      TailOf(systems[s], buckets)
    }

    /** Room for one more entry of a system, and for one more bucket if it takes one. */
    predicate Room(s: nat)
      requires s < |systems|
      reads this
    {
      |entries| < ENTRIES_CAPACITY && (TailAt(s).Continues(|entries|) || |buckets| < BUCKETS_CAPACITY)
    }

    constructor ()
      ensures Valid() && fresh(names) && fresh(names.buffer)
      ensures numSystems == 0 && forall s :: 0 <= s < |systems| ==> List(s) == []
      ensures |entries| == 0 && |buckets| == 1 && forall s :: 0 <= s < |systems| ==> TailAt(s) == Tail(0, 0, 0)
      ensures names.length == 24 && forall name :: InStore(names.Bytes(), name) <==> name in INITIAL_NAMES
    {
      hide AllDifferent, InStore, Gathered, Decoded;
      names := new Text(NAMES_CAPACITY);
      systems := seq(SYSTEMS_CAPACITY, _ => NO_FRAGMENTS);
      numSystems := 0;
      buckets := [Bucket(0, 0)];
      entries := [];
      memory := [];
      home := [];
      slots := [(0, 0)];
      new;
      PushInitialNames(names);
      forall s | 0 <= s < |systems| ensures List(s) == [] {
        GatheredNone(Everything(), buckets, systems[s]);
        GatheredEmpty(Everything(), buckets, systems[s], 0, 4);
      }
    }

    /** The bucket of the system that ends with the last entry, if there is one. */
    method CanContinue(s: nat) returns (r: Option<nat>)
      requires Valid() && s < |systems|
      ensures r.Some? <==> TailAt(s).Continues(|entries|)
      ensures r.Some? ==> r.value == systems[s][TailAt(s).used - 1] < |buckets|
    {
      LastContinues(systems, buckets, home, slots, s);
      for i := 0 to 4
        invariant forall j :: 0 <= j < i && systems[s][j] != 0 ==> buckets[systems[s][j]].End() != |entries|
      {
        if systems[s][i] != 0 && buckets[systems[s][i]].End() == |entries| {
          return Some(systems[s][i]);
        }
      }
      return None;
    }

    /** A new, empty bucket at the end of the entries for the system's first unused fragment. */
    method AttachReferenceBucket(s: nat) returns (r: Option<nat>)
      requires Valid() && s < |systems| && |buckets| < BUCKETS_CAPACITY
      modifies this
      ensures unchanged(`numSystems) && unchanged(`entries) && unchanged(`memory) && unchanged(`home)
      ensures r.None? <==> old(TailAt(s).used) == 4
      ensures r.Some? ==> && r.value == |old(buckets)| && buckets == old(buckets) + [Bucket(|entries|, 0)]
                          && systems == old(systems)[s := old(systems)[s][old(TailAt(s).used) := r.value]]
                          && slots == old(slots) + [(s, old(TailAt(s).used))]
    {
      hide Valid;
      for k := 0 to 4
        invariant forall j :: 0 <= j < k ==> systems[s][j] != 0
        invariant unchanged(this)
      {
        if systems[s][k] == 0 {
          systems := systems[s := systems[s][k := |buckets|]];
          slots := slots + [(s, k)];
          buckets := buckets + [Bucket(|entries|, 0)];
          return Some(systems[s][k]);
        }
      }
      return None;
    }

    /** The tables have taken one more entry for system `s`, in its fragment `i`. */
    twostate predicate Took(s: nat, i: nat)
      reads this
    {
      && s < |old(systems)| == |systems| && systems == old(systems)[s := systems[s]] && |home| == |old(entries)| + 1
      && Extended(old(systems[s]), old(buckets), |old(entries)|, systems[s], buckets, i)
      && Partition(buckets, home) && Owned(systems, buckets, slots, |home|)
      && (old(systems[s])[i] != 0 <==> old(TailAt(s).Continues(|entries|)))
    }

    method ContinueBucket(s: nat, b: nat) returns (ghost i: nat)
      requires Valid() && s < |systems| && TailAt(s).Continues(|entries|) && TailAt(s).count < 255
      requires b == systems[s][TailAt(s).used - 1] < |buckets|
      modifies `buckets, `home
      ensures Took(s, i)
    {
      hide Partition, Owned, Extended, TailOf;
      LastContinues(systems, buckets, home, slots, s);
      i := TailAt(s).used - 1;
      PartitionGrows(buckets, home, b);
      OwnedGrows(systems, buckets, slots, |entries|, s, i);
      buckets := buckets[b := Bucket(buckets[b].offset, buckets[b].count + 1)];
      home := home + [b];
    }

    method StartBucket(s: nat) returns (panicked: bool, ghost i: nat)
      requires Valid() && s < |systems| && !TailAt(s).Continues(|entries|) && |buckets| < BUCKETS_CAPACITY
      modifies this
      ensures unchanged(`numSystems) && unchanged(`entries) && unchanged(`memory)
      ensures panicked == (old(TailAt(s).used) == 4)
      ensures !panicked ==> Took(s, i)
    {
      hide Partition, Owned, Extended, TailOf;
      LastContinues(systems, buckets, home, slots, s);
      PartitionExtends(buckets, home);
      i := TailAt(s).used;
      var b := AttachReferenceBucket(s);
      if b.None? {
        return true, i;
      }
      panicked := false;
      buckets := buckets[b.value := Bucket(buckets[b.value].offset, 1)];
      assert buckets == old(buckets) + [Bucket(|home|, 1)];
      OwnedExtends(old(systems), old(buckets), home, old(slots), s, i);
      home := home + [b.value];
    }

    /** Appends a blank entry to the system: to its last bucket when that ends with the last entry and is not
        full, else to a new one. */
    method AllocateNewEntry(s: nat) returns (index: nat, panicked: bool, ghost i: nat)
      requires Valid() && s < |systems| && Room(s)
      modifies this
      ensures unchanged(`numSystems) && unchanged(`memory) && index == |old(entries)|
      ensures panicked == old(TailAt(s).Stuck(|entries|))
      ensures !panicked ==> entries == old(entries) + [Entry(0, 0)] && Took(s, i)
    {
      hide Partition, Owned, Extended, TailOf;
      LastContinues(systems, buckets, home, slots, s);
      var r := CanContinue(s);
      index, panicked, i := |entries|, false, 0;
      if r.Some? {
        if buckets[r.value].count == 255 {
          panicked := true;
          return;
        }
        i := ContinueBucket(s, r.value);
      } else {
        panicked, i := StartBucket(s);
        if panicked {
          return;
        }
      }
      entries := entries + [Entry(0, 0)];
    }

    /** The number of the name in the store, where it is put if it is not there yet. Panics when there is no room. */
    method InsertName(name: Name) returns (r: nat, panicked: bool)
      requires Valid()
      modifies names, names.buffer
      ensures Valid() && forall t :: 0 <= t < |systems| ==> List(t) == old(List(t))
      ensures panicked <==> old(names.length) == NAMES_CAPACITY && !InStore(old(names.Bytes()), name)
      ensures !panicked ==> 4 * r + 4 <= names.length && Named(names.Bytes(), r) == name
      ensures names.Bytes() == if panicked || InStore(old(names.Bytes()), name) then old(names.Bytes())
          else old(names.Bytes()) + name
    {
      hide Partition, Owned;
      for i := 0 to names.length / 4
        invariant unchanged(names, names.buffer)
        invariant forall k :: 0 <= k < i ==> Named(names.Bytes(), k) != name
      {
        var same := names.CompareExtern(i * 4, name);
        if same {
          assert Named(old(names.Bytes()), i) == name;
          return i, false;
        }
      }
      r := names.length / 4;
      ghost var was := names.Bytes();
      panicked := names.PushBackRaw(name);
      AllDifferentMore(was, name);
      DecodedAgain(was, names.Bytes(), entries, memory);
    }

    /** The part of `add` after the name has its number. */
    method AddEntry(s: nat, nameOffset: nat, v: V) returns (panicked: bool)
      requires Valid() && s < |systems| && Room(s) && s <= numSystems && 4 * nameOffset + 4 <= names.length
      modifies this
      ensures panicked == old(TailAt(s).Stuck(|entries|))
      ensures !panicked ==> && Valid() && numSystems == old(numSystems) && |entries| == |old(entries)| + 1
                            && List(s) == old(List(s)) + [(Named(names.Bytes(), nameOffset), v)]
                            && forall t :: 0 <= t < |systems| && t != s ==> List(t) == old(List(t))
      ensures !panicked ==> && TailAt(s) == old(TailAt(s).Longer(|entries|))
                            && |buckets| == old(|buckets| + if TailAt(s).Continues(|entries|) then 0 else 1)
                            && forall t :: 0 <= t < |systems| && t != s ==> TailAt(t) == old(TailAt(t))
    {
      hide Partition, Owned, Extended, Gathered, AllDifferent, Decoded, Named, TailOf;
      var index;
      ghost var i;
      index, panicked, i := AllocateNewEntry(s);
      if panicked {
        return;
      }
      entries := entries[index := Entry(nameOffset, |memory|)];
      memory := memory + [v];
      assert entries == old(entries) + [Entry(nameOffset, |old(entries)|)];
      DecodedMore(names.Bytes(), old(entries), old(memory), nameOffset, v);
      AddedToOneList(old(Everything()), old(systems), old(buckets), old(home), old(slots), s, systems[s], buckets, i,
                     (Named(names.Bytes(), nameOffset), v));
      TailExtended(old(systems), old(buckets), old(home), old(slots), s, systems[s], buckets, i);
    }

    /** `name` now has value `v` in system `s`, unless it had one before; no other system changes. Panics for
        a system that was never handed out, for a name that is not a single segment, and when out of room. */
    method Add(s: nat, nameString: NameString, v: V) returns (panicked: bool)
      requires Valid() && (s <= numSystems ==> s < SYSTEMS_CAPACITY && Room(s))
      modifies this, names, names.buffer
      ensures panicked <==> || s > old(numSystems) || !nameString.Single?
                            || old(names.length == NAMES_CAPACITY && !InStore(names.Bytes(), nameString.name))
                            || old(TailAt(s).Stuck(|entries|))
      ensures !panicked ==> && Valid() && numSystems == old(numSystems) && |entries| == |old(entries)| + 1
                            && List(s) == old(List(s)) + [(nameString.name, v)]
                            && forall t :: 0 <= t < |systems| && t != s ==> List(t) == old(List(t))
      ensures !panicked ==> && TailAt(s) == old(TailAt(s).Longer(|entries|))
                            && |buckets| == old(|buckets| + if TailAt(s).Continues(|entries|) then 0 else 1)
                            && forall t :: 0 <= t < |systems| && t != s ==> TailAt(t) == old(TailAt(t))
      ensures !panicked ==>
          names.Bytes() == if InStore(old(names.Bytes()), nameString.name) then old(names.Bytes())
                           else old(names.Bytes()) + nameString.name
    {
      hide Partition, Owned, Gathered, AllDifferent, Decoded, InStore, Named, TailOf;
      if s > numSystems {
        return true;
      }
      match nameString {
        case Single(name, _) =>
          var nameOffset;
          nameOffset, panicked := InsertName(name);
          if panicked {
            return;
          }
          panicked := AddEntry(s, nameOffset, v);
        case _ =>
          return true;
      }
    }

    /** The inner loop of `get`. */
    method GetInBucket(b: nat, name: Name) returns (r: Option<V>)
      requires Valid() && 0 < b < |buckets|
      ensures r == FirstMatch(Piece(Everything(), buckets, b), name)
    {
      hide AllDifferent, Partition, Owned, Piece, FirstMatch;
      ghost var piece := Piece(Everything(), buckets, b);
      BucketsEnd(buckets, home);
      PieceIs(Everything(), buckets, b);
      for e := 0 to buckets[b].count
        invariant forall k :: 0 <= k < e ==> piece[k].0 != name
      {
        var entry := entries[buckets[b].offset + e];
        assert piece[e] == (Named(names.Bytes(), entry.name), memory[entry.offset]);
        var same := names.CompareExtern(entry.name * 4, name);
        if same {
          FirstMatchAt(piece, e, name);
          return Some(memory[entry.offset]);
        }
      }
      return None;
    }

    /** The value of the first item with this name in the system, if any. */
    method Get(s: nat, name: Name) returns (r: Option<V>)
      requires Valid() && (s == numSystems ==> s < SYSTEMS_CAPACITY)
      ensures r == if s > numSystems then None else FirstMatch(List(s), name)
    {
      hide AllDifferent, Partition, Gathered, FirstMatch, Piece, Decoded;
      if s > numSystems {
        return None;
      }
      GatheredNone(Everything(), buckets, systems[s]);
      for i := 0 to 4
        invariant FirstMatch(Gathered(Everything(), buckets, systems[s], i), name) == None
      {
        if systems[s][i] == 0 {
          GatheredEmpty(Everything(), buckets, systems[s], i, 4);
          return None;
        }
        r := GetInBucket(systems[s][i], name);
        GatheredStep(Everything(), buckets, systems[s], i);
        FirstMatchConcat(Gathered(Everything(), buckets, systems[s], i),
          Piece(Everything(), buckets, systems[s][i]), name);
        if r.Some? {
          GatheredFound(Everything(), buckets, systems[s], i + 1, name);
          return;
        }
      }
      return None;
    }

    /** Hands out the next system. It starts empty, whatever was added under its number before. */
    method NewSystem() returns (s: nat)
      requires Valid() && numSystems < SYSTEMS_CAPACITY && |buckets| < BUCKETS_CAPACITY
      modifies this
      ensures Valid() && s == old(numSystems) && numSystems == s + 1 && unchanged(`entries)
      ensures |buckets| == |old(buckets)| + 1 && TailAt(s) == Tail(1, |entries|, 0)
      ensures forall t :: 0 <= t < |systems| && t != s ==> TailAt(t) == old(TailAt(t))
      ensures List(s) == [] && forall t :: 0 <= t < |systems| && t != s ==> List(t) == old(List(t))
    {
      hide AllDifferent, Partition, Owned, Gathered, Decoded;
      PartitionExtends(buckets, home);
      s := numSystems;
      systems := systems[s := [|buckets|, 0, 0, 0]];
      slots := slots + [(s, 0)];
      buckets := buckets + [Bucket(|entries|, 0)];
      numSystems := numSystems + 1;
      OwnedByNew(old(systems), old(buckets), home, old(slots), s);
      OldTails(old(systems), old(buckets), old(slots), |entries|, Bucket(|entries|, 0));
      assert Everything() == old(Everything());
      NewListEmpty(Everything(), buckets, systems[s]);
      forall t | 0 <= t < |systems| && t != s ensures List(t) == old(List(t)) {
        OldPieces(Everything(), old(systems), old(buckets), old(slots), Bucket(|entries|, 0), t);
      }
    }
  }
}
