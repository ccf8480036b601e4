/** Whole runs of the name stores: what `get` finds after any sequence of `new_system` and `add`. */
module NameRuns {
  import opened Memory
  import opened Texts
  import opened Names

  datatype Op<V> = Create | Put(system: nat, name: Name, value: V)

  /** How many systems a run hands out. */
  function Created<V>(ops: seq<Op<V>>): (n: nat)
    ensures n <= |ops|
  {
    if ops == [] then 0 else Created(ops[..|ops| - 1]) + if ops[|ops| - 1].Create? then 1 else 0
  }

  ghost function ListAfter<V>(ops: seq<Op<V>>, s: nat): Items<V> {
    if ops == [] then []
    else
      var n := |ops| - 1;
      var before := ListAfter(ops[..n], s);
      match ops[n]
      case Create => if Created(ops[..n]) == s then [] else before
      case Put(t, name, v) => if t == s then before + [(name, v)] else before
  }

  /** The value of the first `add` of this name to this system. */
  ghost function FirstPut<V>(ops: seq<Op<V>>, s: nat, name: Name): Option<V> {
    if ops == [] then None
    else if ops[0].Put? && ops[0].system == s && ops[0].name == name then Some(ops[0].value)
    else FirstPut(ops[1..], s, name)
  }

  lemma {:induction false} FirstPutConcat<V>(xs: seq<Op<V>>, ys: seq<Op<V>>, s: nat, name: Name)
    ensures FirstPut(xs + ys, s, name) == if FirstPut(xs, s, name).Some? then FirstPut(xs, s, name)
        else FirstPut(ys, s, name)
  {
    if xs == [] {
      assert xs + ys == ys;
    } else {
      assert (xs + ys)[1..] == xs[1..] + ys;
      FirstPutConcat(xs[1..], ys, s, name);
    }
  }

  lemma FirstPutMore<V>(ops: seq<Op<V>>, op: Op<V>, s: nat, name: Name)
    ensures FirstPut(ops + [op], s, name) == if FirstPut(ops, s, name).Some? then FirstPut(ops, s, name)
        else if op.Put? && op.system == s && op.name == name then Some(op.value) else None
  {
    FirstPutConcat(ops, [op], s, name);
  }

  lemma FirstMatchMore<V>(items: Items<V>, item: (Name, V), name: Name)
    ensures FirstMatch(items + [item], name) == if FirstMatch(items, name).Some? then FirstMatch(items, name)
        else if item.0 == name then Some(item.1) else None
  {
    FirstMatchConcat(items, [item], name);
  }

  /** The operations after the one that hands out system `s`; all of them as long as there is none. */
  ghost function SinceCreation<V>(ops: seq<Op<V>>, s: nat): seq<Op<V>> {
    if ops == [] then []
    else
      var n := |ops| - 1;
      if ops[n].Create? && Created(ops[..n]) == s then [] else SinceCreation(ops[..n], s) + [ops[n]]
  }

  /** What is found is the first value added since the system was handed out; whatever is added to other
      systems in between, and however the list is fragmented, makes no difference. */
  lemma {:induction false} FoundIsFirstAddSinceCreation<V>(ops: seq<Op<V>>, s: nat, name: Name)
    ensures FirstMatch(ListAfter(ops, s), name) == FirstPut(SinceCreation(ops, s), s, name)
  {
    hide FirstMatch;
    if ops != [] {
      var n := |ops| - 1;
      FoundIsFirstAddSinceCreation(ops[..n], s, name);
      FirstPutMore(SinceCreation(ops[..n], s), ops[n], s, name);
      if ops[n].Put? && ops[n].system == s {
        FirstMatchMore(ListAfter(ops[..n], s), (ops[n].name, ops[n].value), name);
      }
      NoMatch<V>(name);
    }
  }

  lemma NoMatch<V>(name: Name)
    ensures FirstMatch<V>([], name) == None
  {
  }

  /** Every `add` names a system that has been handed out. */
  ghost predicate Registered<V>(ops: seq<Op<V>>) {
    forall k :: 0 <= k < |ops| && ops[k].Put? ==> ops[k].system < Created(ops[..k])
  }

  lemma {:induction false} NothingBeforeCreation<V>(ops: seq<Op<V>>, s: nat, name: Name)
    requires Registered(ops) && Created(ops) <= s
    ensures FirstPut(ops, s, name) == None
  {
    if ops != [] {
      var n := |ops| - 1;
      assert forall k :: 0 <= k < n ==> ops[..n][..k] == ops[..k];
      NothingBeforeCreation(ops[..n], s, name);
      FirstPutConcat(ops[..n], [ops[n]], s, name);
      assert ops == ops[..n] + [ops[n]];
      assert ops[n].Put? ==> ops[n].system < Created(ops[..n]);
    }
  }

  /** In a run that adds only to systems it was handed, `get` finds the first value ever added, or nothing. */
  lemma {:induction false} FoundIsFirstAdd<V>(ops: seq<Op<V>>, s: nat, name: Name)
    requires Registered(ops)
    ensures FirstMatch(ListAfter(ops, s), name) == FirstPut(ops, s, name)
  {
    hide FirstMatch;
    NoMatch<V>(name);
    if ops != [] {
      var n := |ops| - 1;
      assert forall k :: 0 <= k < n ==> ops[..n][..k] == ops[..k];
      FoundIsFirstAdd(ops[..n], s, name);
      FirstPutMore(ops[..n], ops[n], s, name);
      assert ops == ops[..n] + [ops[n]];
      if ops[n].Create? && Created(ops[..n]) == s {
        NothingBeforeCreation(ops[..n], s, name);
      } else if ops[n].Put? && ops[n].system == s {
        FirstMatchMore(ListAfter(ops[..n], s), (ops[n].name, ops[n].value), name);
      }
    }
  }

  /** `add` also accepts the number that is handed out next; what it adds there is lost when that happens. */
  lemma EarlyAddIsLost<V>(ops: seq<Op<V>>, name: Name, v: V)
    ensures var s := Created(ops);
            && FirstMatch(ListAfter(ops + [Put(s, name, v)], s), name).Some?
            && FirstMatch(ListAfter(ops + [Put(s, name, v), Create], s), name) == None
            && FirstPut(ops + [Put(s, name, v), Create], s, name).Some?
  {
    var s := Created(ops);
    var one := ops + [Put(s, name, v)];
    var two := ops + [Put(s, name, v), Create];
    assert one[..|ops|] == ops && two[..|ops| + 1] == one;
    FirstMatchConcat(ListAfter(ops, s), [(name, v)], name);
    FirstPutConcat(ops, [Put(s, name, v), Create], s, name);
  }

  // ----- how far a run gets

  /** How many entries a run adds. */
  function Puts<V>(ops: seq<Op<V>>): nat {
    if ops == [] then 0 else Puts(ops[..|ops| - 1]) + if ops[|ops| - 1].Put? then 1 else 0
  }

  ghost function NamesAfter<V>(ops: seq<Op<V>>): set<Name> {
    if ops == [] then INITIAL_NAMES
    else
      var n := |ops| - 1;
      if ops[n].Put? then NamesAfter(ops[..n]) + {ops[n].name} else NamesAfter(ops[..n])
  }

  /** The fragments of a system: it starts with an empty one, stays in it as long as no other system comes in
      between, and goes on in a new one after that. */
  ghost function TailAfter<V>(ops: seq<Op<V>>, s: nat): Tail {
    if ops == [] then Tail(0, 0, 0)
    else
      var n := |ops| - 1;
      var before := TailAfter(ops[..n], s);
      match ops[n]
      case Create => if Created(ops[..n]) == s then Tail(1, Puts(ops[..n]), 0) else before
      case Put(t, _, _) => if t == s then before.Longer(Puts(ops[..n])) else before
  }

  /** The fragments ever started, and the one that stands for none. */
  ghost function BucketsAfter<V>(ops: seq<Op<V>>): nat {
    if ops == [] then 1
    else
      var n := |ops| - 1;
      BucketsAfter(ops[..n])
      + if ops[n].Put? && TailAfter(ops[..n], ops[n].system).Continues(Puts(ops[..n])) then 0 else 1
  }

  /** The next operation needs a place in a table that has none left. */
  ghost predicate TablesFull<V>(ops: seq<Op<V>>, op: Op<V>) {
    match op
    case Create => Created(ops) >= SYSTEMS_CAPACITY || BucketsAfter(ops) >= BUCKETS_CAPACITY
    case Put(t, _, _) =>
      && t <= Created(ops)
      && (|| t >= SYSTEMS_CAPACITY || Puts(ops) >= ENTRIES_CAPACITY
          || (!TailAfter(ops, t).Continues(Puts(ops)) && BucketsAfter(ops) >= BUCKETS_CAPACITY))
  }

  /** The next operation adds to a system far from being handed out, adds a new name to a full name store, or
      needs a fifth fragment or a 256th entry in one fragment. */
  ghost predicate Panics<V>(ops: seq<Op<V>>, op: Op<V>) {
    op.Put? && (|| op.system > Created(ops)
                || (4 * |NamesAfter(ops)| == NAMES_CAPACITY && op.name !in NamesAfter(ops))
                || TailAfter(ops, op.system).Stuck(Puts(ops)))
  }

  ghost predicate Fits<V>(ops: seq<Op<V>>, op: Op<V>) {
    !TablesFull(ops, op) && !Panics(ops, op)
  }

  /** The store holds what the run says. */
  ghost predicate Agrees<V>(store: NameSystem<V>, ops: seq<Op<V>>)
    reads store, store.names, store.names.buffer
  {
    && store.Valid() && store.numSystems == Created(ops) && |store.entries| == Puts(ops)
    && |store.buckets| == BucketsAfter(ops)
    && (forall t :: 0 <= t < |store.systems| ==>
          store.List(t) == ListAfter(ops, t) && store.TailAt(t) == TailAfter(ops, t))
    && NamesAgree(store.names.Bytes(), NamesAfter(ops))
  }

  ghost predicate NamesAgree(text: seq<Byte>, names: set<Name>) {
    |text| == 4 * |names| && forall name :: InStore(text, name) <==> name in names
  }

  lemma NamesAgreeMore(text: seq<Byte>, names: set<Name>, name: Name)
    requires NamesAgree(text, names)
    ensures NamesAgree(if InStore(text, name) then text else text + name, names + {name})
  {
    hide Named;
    if InStore(text, name) {
      assert names + {name} == names;
    } else {
      forall other ensures InStore(text + name, other) <==> other in names + {name} {
        InStoreMore(text, name, other);
      }
    }
  }

  lemma InStoreMore(text: seq<Byte>, name: Name, other: Name)
    requires |text| % 4 == 0
    ensures InStore(text + name, other) <==> InStore(text, other) || other == name
  {
    var n := |text| / 4;
    forall i | 0 <= i < n ensures Named(text + name, i) == Named(text, i) {}
    assert Named(text + name, n) == name;
    if InStore(text, other) {
      var i :| 0 <= i < n && Named(text, i) == other;
      assert Named(text + name, i) == other;
    }
    if InStore(text + name, other) {
      var i :| 0 <= i < n + 1 && Named(text + name, i) == other;
      if i < n { assert Named(text, i) == other; }
    }
  }

  lemma NamesAgreeOn(text: seq<Byte>, names: set<Name>, name: Name)
    requires NamesAgree(text, names)
    ensures |text| == 4 * |names| && (InStore(text, name) <==> name in names)
  {
  }

  lemma OneMore<V>(ops: seq<Op<V>>, op: Op<V>)
    ensures Created(ops + [op]) == Created(ops) + if op.Create? then 1 else 0
    ensures Puts(ops + [op]) == Puts(ops) + if op.Put? then 1 else 0
    ensures NamesAfter(ops + [op]) == if op.Put? then NamesAfter(ops) + {op.name} else NamesAfter(ops)
    ensures BucketsAfter(ops + [op])
        == BucketsAfter(ops) + if op.Put? && TailAfter(ops, op.system).Continues(Puts(ops)) then 0 else 1
  {
    assert (ops + [op])[..|ops|] == ops;
  }

  lemma OneMoreFor<V>(ops: seq<Op<V>>, op: Op<V>, s: nat)
    ensures s != (if op.Create? then Created(ops) else op.system) ==>
        ListAfter(ops + [op], s) == ListAfter(ops, s) && TailAfter(ops + [op], s) == TailAfter(ops, s)
    ensures op.Create? && s == Created(ops) ==>
        ListAfter(ops + [op], s) == [] && TailAfter(ops + [op], s) == Tail(1, Puts(ops), 0)
    ensures op.Put? && s == op.system ==> && ListAfter(ops + [op], s) == ListAfter(ops, s) + [(op.name, op.value)]
                                          && TailAfter(ops + [op], s) == TailAfter(ops, s).Longer(Puts(ops))
  {
    assert (ops + [op])[..|ops|] == ops;
  }

  /** Entries that are added to a system in a row share one fragment, and it is the 256th that does not fit. */
  lemma {:induction false} InARow<V>(ops: seq<Op<V>>, s: nat, row: seq<Op<V>>)
    requires Created(ops) == s && |row| <= 255 && forall i :: 0 <= i < |row| ==> row[i].Put? && row[i].system == s
    ensures var all := ops + [Create] + row;
            && Created(all) == s + 1 && Puts(all) == Puts(ops) + |row|
            && TailAfter(all, s) == Tail(1, Puts(ops) + |row|, |row|)
            && forall name, v :: Panics(all, Put(s, name, v))
                 <==> |row| == 255 || (4 * |NamesAfter(all)| == 0x1000 && name !in NamesAfter(all))
  {
    hide Created, Puts, TailAfter, NamesAfter, ListAfter, BucketsAfter;
    OneMore(ops, Create);
    OneMoreFor(ops, Create, s);
    if row == [] {
      assert ops + [Create] + row == ops + [Create];
    } else {
      var k := |row| - 1;
      InARow(ops, s, row[..k]);
      assert ops + [Create] + row == ops + [Create] + row[..k] + [row[k]];
      OneMore(ops + [Create] + row[..k], row[k]);
      OneMoreFor(ops + [Create] + row[..k], row[k], s);
    }
  }

  method PlayCreate<V>(store: NameSystem<V>, ghost ops: seq<Op<V>>) returns (refused: bool)
    requires Agrees(store, ops)
    modifies store, store.names, store.names.buffer
    ensures refused == TablesFull(ops, Create)
    ensures Agrees(store, if refused then ops else ops + [Create])
  {
    hide Gathered, Decoded, Partition, Owned, AllDifferent, TailOf;
    hide NamesAgree, Created, Puts, NamesAfter, BucketsAfter, ListAfter, TailAfter;
    refused := store.numSystems == SYSTEMS_CAPACITY || |store.buckets| >= BUCKETS_CAPACITY;
    if !refused {
      var _ := store.NewSystem();
      OneMore(ops, Create);
      forall t: nat { OneMoreFor(ops, Create, t); }
    }
  }

  method PlayPut<V>(store: NameSystem<V>, ghost ops: seq<Op<V>>, t: nat, name: Name, v: V)
    returns (refused: bool, panicked: bool)
    requires Agrees(store, ops)
    modifies store, store.names, store.names.buffer
    ensures refused == TablesFull(ops, Put(t, name, v)) && panicked == (!refused && Panics(ops, Put(t, name, v)))
    ensures !panicked ==> Agrees(store, if refused then ops else ops + [Put(t, name, v)])
  {
    hide NamesAgree, InStore, Tail.Longer, Created, Puts, NamesAfter, BucketsAfter, ListAfter, TailAfter;
    hide Gathered, Decoded, Partition, Owned, AllDifferent, TailOf, Named;
    NamesAgreeOn(store.names.Bytes(), NamesAfter(ops), name);
    NamesAgreeMore(store.names.Bytes(), NamesAfter(ops), name);
    refused, panicked := t <= store.numSystems && (t == SYSTEMS_CAPACITY || !store.Room(t)), false;
    if !refused {
      panicked := store.Add(t, Single(name, false), v);
      OneMore(ops, Put(t, name, v));
      forall u: nat { OneMoreFor(ops, Put(t, name, v), u); }
    }
  }

  /** One operation, if the tables have room for it. */
  method Play<V>(store: NameSystem<V>, ghost ops: seq<Op<V>>, op: Op<V>) returns (refused: bool, panicked: bool)
    requires Agrees(store, ops)
    modifies store, store.names, store.names.buffer
    ensures refused == TablesFull(ops, op) && panicked == (!refused && Panics(ops, op))
    ensures !panicked ==> Agrees(store, if refused then ops else ops + [op])
  {
    hide Agrees, TablesFull;
    match op {
      case Create =>
        refused := PlayCreate(store, ops);
        panicked := false;
      case Put(t, name, v) =>
        refused, panicked := PlayPut(store, ops, t, name, v);
    }
  }

  /** A run, up to the first operation that panics or for which a table is full. */
  method PlayAll<V>(store: NameSystem<V>, ops: seq<Op<V>>) returns (done: nat, panicked: bool)
    requires Agrees(store, [])
    modifies store, store.names, store.names.buffer
    ensures done <= |ops| && forall k :: 0 <= k < done ==> Fits(ops[..k], ops[k])
    ensures done < |ops| ==> !Fits(ops[..done], ops[done])
    ensures panicked <==> done < |ops| && !TablesFull(ops[..done], ops[done])
    ensures !panicked ==> Agrees(store, ops[..done])
  {
    hide Agrees, TablesFull, Panics;
    done, panicked := 0, false;
    while done < |ops|
      invariant done <= |ops| && !panicked && Agrees(store, ops[..done])
      invariant forall k :: 0 <= k < done ==> Fits(ops[..k], ops[k])
    {
      var refused;
      refused, panicked := Play(store, ops[..done], ops[done]);
      if panicked || refused { return; }
      assert ops[..done] + [ops[done]] == ops[..done + 1];
      done := done + 1;
    }
  }

  /** Plays a run on a new name store and looks a name up. The run goes through exactly when each operation
      fits after the ones before it. */
  method PlayThenGet<V>(ops: seq<Op<V>>, s: nat, name: Name) returns (r: Option<V>, done: nat, panicked: bool)
    requires s < SYSTEMS_CAPACITY
    ensures done <= |ops| && forall k :: 0 <= k < done ==> Fits(ops[..k], ops[k])
    ensures done < |ops| ==> !Fits(ops[..done], ops[done])
    ensures panicked <==> done < |ops| && !TablesFull(ops[..done], ops[done])
    ensures !panicked ==> r == if s > Created(ops[..done]) then None else FirstMatch(ListAfter(ops[..done], s), name)
    ensures done == |ops| && Registered(ops) ==> r == FirstPut(ops, s, name)
  {
    hide FirstMatch, Fits, TablesFull, NamesAgree, Gathered, Decoded, Partition, Owned, AllDifferent, TailOf, InStore;
    InitialNamesDiffer();
    var store := new NameSystem<V>();
    assert NamesAgree(store.names.Bytes(), NamesAfter<V>([])) by { NewNamesAgree<V>(store.names.Bytes()); }
    done, panicked := PlayAll(store, ops);
    r := None;
    if !panicked {
      r := store.Get(s, name);
    }
    if done == |ops| && Registered(ops) {
      assert ops[..done] == ops;
      FoundIsFirstAdd(ops, s, name);
      if s > Created(ops) { NothingBeforeCreation(ops, s, name); }
    }
  }

  lemma NewNamesAgree<V>(text: seq<Byte>)
    requires |text| == 24 && forall name :: InStore(text, name) <==> name in INITIAL_NAMES
    ensures NamesAgree(text, NamesAfter<V>([]))
  {
    InitialNamesDiffer();
  }
}
