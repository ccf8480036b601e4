/** Whole runs of a directory: how far the insertions get without a rehash, and what is found afterwards. */
module DirectoryRuns {
  import opened Directories
  import opened Hashes
  import opened Memory
  import opened Placements
  import opened Slabs
  import opened Texts

  /** The plain map after one item more: the first link of a name stays. */
  function With<L>(plain: map<seq<Byte>, L>, item: (seq<Byte>, L)): map<seq<Byte>, L> {
    if item.0 in plain then plain else plain[item.0 := item.1]
  }

  /** The plain map after inserting all items. */
  ghost function FirstWins<L>(items: seq<(seq<Byte>, L)>): map<seq<Byte>, L> {
    if items == [] then map[] else With(FirstWins(items[..|items| - 1]), items[|items| - 1])
  }

  lemma FirstWinsMore<L>(items: seq<(seq<Byte>, L)>, k: nat)
    requires k < |items|
    ensures FirstWins(items[..k + 1]) == With(FirstWins(items[..k]), items[k])
  {
    assert items[..k + 1][..k] == items[..k];
  }

  lemma {:induction false} FirstWinsIsFirst<L>(items: seq<(seq<Byte>, L)>, k: nat)
    requires k < |items| && forall j :: 0 <= j < k ==> items[j].0 != items[k].0
    ensures items[k].0 in FirstWins(items) && FirstWins(items)[items[k].0] == items[k].1
  {
    var n := |items| - 1;
    if k < n {
      FirstWinsIsFirst(items[..n], k);
    } else {
      NeverInserted(items[..n], items[k].0);
    }
  }

  lemma {:induction false} NeverInserted<L>(items: seq<(seq<Byte>, L)>, name: seq<Byte>)
    requires forall j :: 0 <= j < |items| ==> items[j].0 != name
    ensures name !in FirstWins(items)
  {
    if items != [] { NeverInserted(items[..|items| - 1], name); }
  }

  // ----- how far a run gets

  function SameHash<L>(plain: map<seq<Byte>, L>, h: nat, n: nat): set<seq<Byte>>
    requires n > 0
  {
    set name | name in plain && Hash(name, n) == h
  }

  function SameClass<L>(plain: map<seq<Byte>, L>, t: StringType): set<seq<Byte>> {
    set name | name in plain && TypeFor(|name|) == t
  }

  /** The name meets a bucket of 16, or is new and too long, or is new and all slots for its length are taken. */
  predicate Stops<L>(plain: map<seq<Byte>, L>, name: seq<Byte>, n: nat)
    requires n > 0
  {
    || |SameHash(plain, Hash(name, n), n)| == 16
    || (name !in plain && (|name| > 32 || |SameClass(plain, TypeFor(|name|))| == SlotsFor(|name|)))
  }

  /** The store of names holds the names of the directory, each once, and nothing else. */
  ghost predicate Stored<L>(names: map<nat, seq<Byte>>, plain: map<seq<Byte>, L>) {
    && (forall o :: o in names ==> Aligned(o) && TypeOf(o) == TypeFor(|names[o]|) && names[o] in plain)
    && (forall name :: name in plain ==> name in names.Values)
    && (forall o, p :: o in names && p in names && names[o] == names[p] ==> o == p)
  }

  lemma StoredMore<L>(names: map<nat, seq<Byte>>, plain: map<seq<Byte>, L>, o: nat, name: seq<Byte>, link: L)
    requires Stored(names, plain) && name !in plain && LowestFree(names, |name|, o)
    ensures Stored(names[o := name], plain[name := link])
  {
    hide Aligned, TypeOf, TypeFor;
    var names' := names[o := name];
    forall other | other in plain[name := link] ensures other in names'.Values {
      if other == name {
        assert names'[o] == name;
      } else {
        var p :| p in names && names[p] == other;
        assert names'[p] == other;
      }
    }
  }

  lemma ClassFull<L>(names: map<nat, seq<Byte>>, plain: map<seq<Byte>, L>, length: nat)
    requires Stored(names, plain) && length <= 32
    ensures NoSlotFor(names, length) <==> |SameClass(plain, TypeFor(length))| == SlotsFor(length)
  {
    hide Aligned, TypeOf, TypeFor, SlotsFor;
    OffsetsFor(length);
    var t := TypeFor(length);
    FullExactly(names, length);
    var m := map o | o in InTable(names, t) :: names[o];
    SameCount(m);
    assert m.Keys == InTable(names, t);
    forall name | name in SameClass(plain, t) ensures name in m.Values {
      var o :| o in names && names[o] == name;
      assert o in m && m[o] == name;
    }
    assert m.Values == SameClass(plain, t);
  }

  lemma {:induction false} DistinctCount<T>(xs: seq<T>)
    requires forall i, j :: 0 <= i < j < |xs| ==> xs[i] != xs[j]
    ensures |set x | x in xs| == |xs|
  {
    if xs != [] {
      var k := |xs| - 1;
      DistinctCount(xs[..k]);
      assert (set x | x in xs) == (set x | x in xs[..k]) + {xs[k]};
    }
  }

  /** A bucket holds as many names as hash there. */
  lemma UsedCount<L>(names: map<nat, seq<Byte>>, plain: map<seq<Byte>, L>, b: Bucket<L>, h: nat, n: nat)
    requires n > 0 && BucketOk(names, plain, b, h, n)
    ensures |SameHash(plain, h, n)| == b.used
  {
    hide Hash;
    var xs := seq(b.used, i requires 0 <= i < b.used => names[b.entries[i].offset]);
    DistinctCount(xs);
    forall name | name in SameHash(plain, h, n) ensures name in xs {
      var i: nat :| Named(names, b, i, name);
      assert xs[i] == name;
    }
    assert SameHash(plain, h, n) == set x | x in xs;
  }

  lemma CrowdedExactly<L>(names: map<nat, seq<Byte>>, plain: map<seq<Byte>, L>, buckets: seq<Bucket<L>>, h: nat)
    requires AllOk(names, plain, buckets) && h < |buckets|
    ensures buckets[h].IsFull() && !buckets[h].CanGrow() <==> |SameHash(plain, h, |buckets|)| == MAXIMUM_ENTRIES
  {
    hide Hash;
    assert BucketOk(names, plain, buckets[h], h, |buckets|);
    UsedCount(names, plain, buckets[h], h, |buckets|);
  }

  /** Inserts one item; all larger buckets are served. */
  method InsertOne<L>(directory: DirectoryHashmap<L>, item: (seq<Byte>, L), memory: (nat, nat) -> Entry<L>)
    returns (stops: bool)
    requires directory.Valid() && NulFree(item.0) && Stored(directory.strings.names, directory.contents)
    modifies directory, directory.strings`names, directory.strings.Repr()
    ensures directory.Valid() && |directory.buckets| == |old(directory.buckets)|
    ensures Stored(directory.strings.names, directory.contents)
    ensures stops == Stops(old(directory.contents), item.0, |directory.buckets|)
    ensures directory.contents == if stops then old(directory.contents) else With(old(directory.contents), item)
  {
    hide NulFree, Hash, StringAllocator.Valid, NoSlotFor, LowestFree, AllOk, Stored, SameHash, SameClass, Readable;
    ghost var names, plain := directory.strings.names, directory.contents;
    var h := HashStr(item.0, |directory.buckets|);
    CrowdedExactly(names, plain, directory.buckets, h);
    if directory.buckets[h].IsFull() && !directory.buckets[h].CanGrow() {
      return true;
    }
    if |item.0| <= 32 { ClassFull(names, plain, |item.0|); }
    var result, _, o := directory.InsertPlain(item.0, item.1, Supply(false, 1, memory), None);
    if result.Success? { StoredMore(names, plain, o, item.0, item.1); }
    return result.StringReallocationRequired?;
  }

  /** Inserts items into a new directory up to the first that needs a rehash or finds no room, then looks a name up.
      The run goes through exactly when no item stops it. */
  method InsertThenLookup<L>(blocks: seq<seq<Entry<L>>>, items: seq<(seq<Byte>, L)>, memory: (nat, nat) -> Entry<L>,
                             name: seq<Byte>)
    returns (r: Option<L>, done: nat)
    requires |blocks| > 0 && forall b :: 0 <= b < |blocks| ==> |blocks[b]| == 4
    requires forall k :: 0 <= k < |items| ==> NulFree(items[k].0)
    ensures done <= |items| && forall k :: 0 <= k < done ==> !Stops(FirstWins(items[..k]), items[k].0, |blocks|)
    ensures done < |items| ==> Stops(FirstWins(items[..done]), items[done].0, |blocks|)
    ensures var plain := FirstWins(items[..done]); r == if name in plain then Some(plain[name]) else None
  {
    hide NulFree, Hash, StringAllocator.Valid, AllOk, Stored, Stops, Readable, FirstWins, With, FirstIn;
    var strings := new StringAllocator();
    var directory := new DirectoryHashmap(strings, blocks);
    done := 0;
    NothingStored<L>(strings.names);
    assert items[..0] == [];
    while done < |items|
      invariant done <= |items| && fresh(strings) && fresh(strings.Repr()) && fresh(directory)
      invariant directory.strings == strings && |directory.buckets| == |blocks|
      invariant directory.Valid() && directory.contents == FirstWins(items[..done])
      invariant Stored(strings.names, directory.contents)
      invariant forall k :: 0 <= k < done ==> !Stops(FirstWins(items[..k]), items[k].0, |blocks|)
    {
      var stops := InsertOne(directory, items[done], memory);
      if stops { break; }
      FirstWinsMore(items, done);
      done := done + 1;
    }
    r := directory.Lookup(name);
  }

  lemma NothingStored<L>(names: map<nat, seq<Byte>>)
    requires names == map[]
    ensures Stored<L>(names, map[]) && FirstWins<L>([]) == map[]
  {
  }
}
