/** Nested Scope, Device and Processor blocks, and the walk from a path to its enclosing scopes (aml/mod.rs). */
module Scopes {
  import opened Memory
  import opened Texts
  import opened Names
  import opened Paths

  // ----- blocks

  /** Machine code as far as paths are concerned: a block that opens a frame for its path, or an
      instruction that only refers to a path. */
  datatype Block = Nested(name: NameString, body: seq<Block>) | Reference(name: NameString)

  /** Every name has a segment. */
  ghost predicate Segmented(b: Block) {
    SegmentsOf(b.name) != [] && (b.Nested? ==> forall i :: 0 <= i < |b.body| ==> Segmented(b.body[i]))
  }

  ghost predicate TopNotExtended(frames: seq<Frame>) { frames == [] || !frames[|frames| - 1].extended }

  // ----- what a block needs and leaves, on plain values

  /** The paths that have an id, the bytes used for them, the current path, and the room left on the two stacks. */
  datatype Env = Env(paths: set<seq<Byte>>, text: nat, current: seq<Byte>, frameRoom: nat, activeRoom: nat)

  function Wanted(env: Env, name: NameString): seq<Byte> {
    if name.absolute then SegmentsOf(name) else env.current + SegmentsOf(name)
  }

  /** The path has more than 255 segments, or it is new and there is no room for its text. */
  predicate TooLong(env: Env, name: NameString) {
    var wanted := Wanted(env, name);
    |wanted| / 4 > 255 || (wanted !in env.paths && env.text + |wanted| > STORAGE_CAPACITY)
  }

  function With(env: Env, name: NameString): Env {
    var wanted := Wanted(env, name);
    env.(paths := env.paths + {wanted}, text := env.text + if wanted in env.paths then 0 else |wanted|)
  }

  /** Inside a nested block. */
  function Inside(env: Env, name: NameString): Env
    requires env.frameRoom > 0 && env.activeRoom > 0
  {
    With(env, name).(current := Wanted(env, name), frameRoom := env.frameRoom - 1, activeRoom := env.activeRoom - 1)
  }

  /** A block leaves only the paths it names: the current path and the stacks are as before. */
  function After(env: Env, b: Block): Env
    decreases b, |if b.Nested? then b.body else []| + 1
  {
    match b
    case Reference(name) => With(env, name)
    case Nested(name, body) =>
      if env.frameRoom == 0 || env.activeRoom == 0 then env
      else
        var end := AfterBody(Inside(env, name), b, |body|);
        env.(paths := end.paths, text := end.text)
  }

  function AfterBody(env: Env, b: Block, n: nat): Env
    requires b.Nested? && n <= |b.body|
    decreases b, n
  {
    if n == 0 then env else After(AfterBody(env, b, n - 1), b.body[n - 1])
  }

  /** Some path in the block is too long or there is no room for it, or the blocks are nested too deeply. */
  predicate Panics(env: Env, b: Block)
    decreases b
  {
    match b
    case Reference(name) => TooLong(env, name)
    case Nested(name, body) =>
      || env.frameRoom == 0 || env.activeRoom == 0 || TooLong(env, name)
      || exists i :: 0 <= i < |body| && Panics(AfterBody(Inside(env, name), b, i), body[i])
  }

  ghost function AsSet(paths: seq<seq<Byte>>): set<seq<Byte>> { set path | path in paths }

  ghost function EnvOf(p: PathSystem): Env
    requires p.Valid()
    reads p.Repr()
  {
    Env(AsSet(p.Paths()), |p.storage.Bytes()|, p.Paths()[p.Base()],
        p.frameStack.slots.Length - p.frameStack.inserted, p.activePaths.slots.Length - p.activePaths.inserted)
  }

  lemma NoRoomIs(roots: seq<Root>, text: seq<Byte>, base: nat, name: seq<Byte>)
    requires Table(roots, text) && base < |roots| && name != [] && |name| % 4 == 0
    ensures var wanted := Contents(roots, text)[base] + name;
            NoRoom(roots, text, base, name)
            <==> |wanted| / 4 > 255 || (wanted !in AsSet(Contents(roots, text)) && |text| + |wanted| > STORAGE_CAPACITY)
  {
    hide Table, FirstAt;
    InTable(roots, text, base);
    if FirstAt(roots, text, base, name).None? {
      NotFound(roots, text, base, name);
    } else {
      FoundElsewhere(roots, text, base, name);
    }
  }

  lemma InternedIs(roots: seq<Root>, text: seq<Byte>, base: nat, name: seq<Byte>, owner: nat, roots': seq<Root>,
                   text': seq<Byte>, r: nat)
    requires Table(roots, text) && base < |roots| && name != []
    requires Interned(roots, text, base, name, owner, roots', text', r)
    ensures var wanted := Contents(roots, text)[base] + name;
            && Contents(roots', text')[r] == wanted
            && Contents(roots, text) <= Contents(roots', text')
            && AsSet(Contents(roots', text')) == AsSet(Contents(roots, text)) + {wanted}
            && |text'| == |text| + if wanted in AsSet(Contents(roots, text)) then 0 else |wanted|
  {
    hide Table, FirstAt;
    if FirstAt(roots, text, base, name).None? {
      NotFound(roots, text, base, name);
    } else {
      FoundElsewhere(roots, text, base, name);
    }
  }

  // ----- the interpreter

  /** The id of a name: appended to the current path, or on its own when it is absolute. */
  method Intern(p: PathSystem, name: NameString) returns (r: nat, panicked: bool)
    requires p.Valid() && p.Canonical() && SegmentsOf(name) != []
    modifies p, p.storage, p.storage.buffer
    ensures panicked == old(TooLong(EnvOf(p), name))
    ensures !panicked ==>
        && p.Valid() && p.Canonical() && old(p.roots) <= p.roots && old(p.Paths()) <= p.Paths()
        && r < |p.roots| && p.Paths()[r] == old(Wanted(EnvOf(p), name)) && EnvOf(p) == old(With(EnvOf(p), name))
  {
    hide Table, CanonicalTable, FirstAt, OwnerOfInserted, Contents, NoRoom, Interned, Added, SegmentsOf, AsSet;
    ghost var roots, text, base := p.roots, p.storage.Bytes(), if name.absolute then 0 else p.Base();
    ghost var segments := SegmentsOf(name);
    InTable(roots, text, base);
    RootIsEmpty(roots, text);
    assert [] + segments == segments;
    NoRoomIs(roots, text, base, segments);
    if name.absolute {
      r, panicked := p.Insert(name);
      if !panicked {
        ghost var owner := OwnerOfInserted(roots, text, segments);
        CanonicalIsListed(roots, text, 0, segments, owner, p.roots, p.storage.Bytes(), r);
        InsertedStaysCanonical(roots, text, segments, p.roots, p.storage.Bytes(), r);
        InternedIs(roots, text, 0, segments, owner, p.roots, p.storage.Bytes(), r);
      }
    } else {
      r, panicked := p.Append(name);
      if !panicked {
        CanonicalIsListed(roots, text, base, segments, base, p.roots, p.storage.Bytes(), r);
        AppendedStaysCanonical(roots, text, base, segments, p.roots, p.storage.Bytes(), r);
        InternedIs(roots, text, base, segments, base, p.roots, p.storage.Bytes(), r);
      }
    }
  }

  lemma RootIsEmpty(roots: seq<Root>, text: seq<Byte>)
    requires Table(roots, text)
    ensures |Contents(roots, text)| == |roots| > 0 && Contents(roots, text)[0] == []
  {
  }

  method PushFrameFor(p: PathSystem) returns (panicked: bool)
    requires p.Valid() && p.Canonical()
    modifies p.frameStack, p.frameStack.slots
    ensures p.Valid() && p.Canonical() && panicked == (old(EnvOf(p)).frameRoom == 0)
    ensures !panicked ==>
        && p.frameStack.Contents() == ExtendTop(old(p.frameStack.Contents()), true) + [NO_FRAME]
        && EnvOf(p) == old(EnvOf(p).(frameRoom := EnvOf(p).frameRoom - 1))
  {
    hide Table, CanonicalTable, Contents, AsSet;
    panicked := p.PushFrame();
    assert !panicked ==> |p.frameStack.Contents()| == |old(p.frameStack.Contents())| + 1;
  }

  method MakeCurrent(p: PathSystem, path: nat, appended: bool) returns (panicked: bool)
    requires p.Valid() && p.Canonical() && path < |p.roots|
    modifies p.frameStack, p.frameStack.slots, p.activePaths, p.activePaths.slots
    ensures panicked == (old(EnvOf(p)).activeRoom == 0)
    ensures !panicked ==>
        && p.Valid() && p.Canonical() && p.activePaths.Contents() == old(p.activePaths.Contents()) + [path]
        && p.frameStack.Contents() == MarkTop(old(p.frameStack.Contents()), appended)
        && EnvOf(p) == old(EnvOf(p).(current := p.Paths()[path], activeRoom := EnvOf(p).activeRoom - 1))
  {
    hide Table, CanonicalTable, Contents, AsSet;
    assert |p.Paths()| == |p.roots| by { CurrentIs(p); }
    panicked := p.PushAs(path, appended);
    assert !panicked ==> |p.frameStack.Contents()| == |old(p.frameStack.Contents())|;
  }

  /** The prologue of a block: a frame of its own, with its path current. */
  method EnterBlock(p: PathSystem, name: NameString) returns (panicked: bool)
    requires p.Valid() && p.Canonical() && SegmentsOf(name) != []
    modifies p.Repr()
    ensures panicked == old(EnvOf(p).frameRoom == 0 || EnvOf(p).activeRoom == 0 || TooLong(EnvOf(p), name))
    ensures !panicked ==>
        && p.Valid() && p.Canonical() && old(p.roots) <= p.roots && old(p.Paths()) <= p.Paths()
        && EnvOf(p) == old(Inside(EnvOf(p), name))
    ensures !panicked ==>
        |p.activePaths.Contents()| > 0
          && p.activePaths.Contents()[..|p.activePaths.Contents()| - 1] == old(p.activePaths.Contents())
    ensures !panicked ==>
        p.frameStack.Contents()
          == ExtendTop(old(p.frameStack.Contents()), true) + [NO_FRAME.(appended := Some(!name.absolute))]
  {
    hide Table, CanonicalTable, Contents, SegmentsOf, AsSet, EnvOf, PathSystem.ActiveOk, PathSystem.Canonical;
    panicked := PushFrameFor(p);
    if panicked { return; }
    ghost var frames := p.frameStack.Contents();
    var path;
    path, panicked := Intern(p, name);
    if panicked { return; }
    assert p.frameStack.Contents() == frames;
    panicked := MakeCurrent(p, path, !name.absolute);
  }

  function LastOf(active: seq<nat>): nat { if active == [] then 0 else active[|active| - 1] }

  lemma CurrentIs(p: PathSystem)
    requires p.Valid()
    ensures var base := LastOf(p.activePaths.Contents());
            base < |p.Paths()| == |p.roots| && EnvOf(p).current == p.Paths()[base]
  {
  }

  /** After a block the current path and the frames are what they were before, whatever it contains; every
      id handed out before still denotes the same path, and no two ids denote the same one. */
  method Interpret(p: PathSystem, b: Block) returns (panicked: bool)
    requires p.Valid() && p.Canonical() && Segmented(b) && TopNotExtended(p.frameStack.Contents())
    modifies p.Repr()
    ensures panicked == old(Panics(EnvOf(p), b))
    ensures !panicked ==>
        && p.Valid() && p.Canonical() && old(p.roots) <= p.roots && old(p.Paths()) <= p.Paths()
        && EnvOf(p) == old(After(EnvOf(p), b))
    ensures !panicked ==>
        p.activePaths.Contents() == old(p.activePaths.Contents())
          && p.frameStack.Contents() == old(p.frameStack.Contents())
    decreases b, 1
  {
    hide Table, CanonicalTable, Contents, SegmentsOf, TooLong, With, AsSet, EnvOf, PathSystem.ActiveOk;
    match b {
      case Reference(name) =>
        var r;
        r, panicked := Intern(p, name);
      case Nested(_, _) =>
        panicked := InterpretNested(p, b);
    }
  }

  method InterpretNested(p: PathSystem, b: Block) returns (panicked: bool)
    requires b.Nested? && p.Valid() && p.Canonical() && Segmented(b) && TopNotExtended(p.frameStack.Contents())
    modifies p.Repr()
    ensures panicked == old(Panics(EnvOf(p), b))
    ensures !panicked ==>
        && p.Valid() && p.Canonical() && old(p.roots) <= p.roots && old(p.Paths()) <= p.Paths()
        && EnvOf(p) == old(After(EnvOf(p), b))
    ensures !panicked ==>
        p.activePaths.Contents() == old(p.activePaths.Contents())
          && p.frameStack.Contents() == old(p.frameStack.Contents())
    decreases b, 0, 1
  {
    hide Table, CanonicalTable, Contents, SegmentsOf, TooLong, With, AsSet, Wanted, EnvOf, AfterBody, After, Panics;
    NestedIs(EnvOf(p), b);
    ghost var env, outer, active := EnvOf(p), p.frameStack.Contents(), p.activePaths.Contents();
    CurrentIs(p);
    panicked := EnterBlock(p, b.name);
    if panicked { return; }
    panicked := InterpretBody(p, b);
    if panicked { return; }
    BodyKeeps(Inside(env, b.name), b, |b.body|);
    LeaveBlock(p, outer, active);
    CurrentIs(p);
    assert p.Paths()[LastOf(active)] == old(p.Paths())[LastOf(active)];
  }

  lemma NestedIs(env: Env, b: Block)
    requires b.Nested?
    ensures env.frameRoom == 0 || env.activeRoom == 0 || TooLong(env, b.name) ==> Panics(env, b)
    ensures !(env.frameRoom == 0 || env.activeRoom == 0 || TooLong(env, b.name)) ==>
        var inside := Inside(env, b.name);
        var end := AfterBody(inside, b, |b.body|);
        && (Panics(env, b) <==> exists i :: 0 <= i < |b.body| && Panics(AfterBody(inside, b, i), b.body[i]))
        && After(env, b) == env.(paths := end.paths, text := end.text)
        && inside.frameRoom == env.frameRoom - 1 && inside.activeRoom == env.activeRoom - 1
  {
  }

  /** The epilogue of a block. It never panics: the frame and the path of the block are still there. */
  method LeaveBlock(p: PathSystem, ghost outer: seq<Frame>, ghost active: seq<nat>)
    requires p.Valid() && p.Canonical() && TopNotExtended(outer)
    requires var frames := p.frameStack.Contents();
             |frames| > 0 && frames[..|frames| - 1] == ExtendTop(outer, true) && frames[|frames| - 1].appended.Some?
    requires |p.activePaths.Contents()| > 0 && p.activePaths.Contents()[..|p.activePaths.Contents()| - 1] == active
    modifies p.Repr() - {p, p.storage, p.storage.buffer}
    ensures p.Valid() && p.Canonical() && p.activePaths.Contents() == active && p.frameStack.Contents() == outer
    ensures var was := old(EnvOf(p));
            EnvOf(p)
            == was.(current := EnvOf(p).current, frameRoom := was.frameRoom + 1, activeRoom := was.activeRoom + 1)
  {
    hide Table, CanonicalTable, Contents, AsSet;
    assert ExtendTop(ExtendTop(outer, true), false) == outer;
    assert |p.frameStack.Contents()| == p.frameStack.inserted && |p.activePaths.Contents()| == p.activePaths.inserted;
    var panicked := p.PopFrame();
    assert |p.frameStack.Contents()| == p.frameStack.inserted && |p.activePaths.Contents()| == p.activePaths.inserted;
  }

  /** Nothing in a block changes the current path or the room on the stacks. */
  lemma {:induction false} BodyKeeps(env: Env, b: Block, n: nat)
    requires b.Nested? && n <= |b.body|
    ensures var end := AfterBody(env, b, n);
            end.current == env.current && end.frameRoom == env.frameRoom && end.activeRoom == env.activeRoom
  {
    if n > 0 { BodyKeeps(env, b, n - 1); }
  }

  /** A block that is run through has its own path and those of its names: a relative name lies below the path of the
      block, an absolute one where it says. */
  lemma NamesOfABlock(env: Env, b: Block, i: nat)
    requires b.Nested? && !Panics(env, b) && i < |b.body|
    ensures var own := if b.name.absolute then SegmentsOf(b.name) else env.current + SegmentsOf(b.name);
            var name := b.body[i].name;
            && own in After(env, b).paths
            && (if name.absolute then SegmentsOf(name) else own + SegmentsOf(name)) in After(env, b).paths
  {
    hide SegmentsOf, Panics, After, AfterBody, TooLong;
    NestedIs(env, b);
    var inside := Inside(env, b.name);
    var here := AfterBody(inside, b, i);
    BodyKeeps(inside, b, i);
    BodyStart(inside, b);
    BodyStep(inside, b, i);
    BodyGrows(inside, b, 0, |b.body|);
    BodyGrows(inside, b, i + 1, |b.body|);
    OwnPath(here, b.body[i]);
  }

  lemma BodyStart(env: Env, b: Block)
    requires b.Nested?
    ensures AfterBody(env, b, 0) == env
  {
  }

  lemma BodyStep(env: Env, b: Block, i: nat)
    requires b.Nested? && i < |b.body|
    ensures AfterBody(env, b, i + 1) == After(AfterBody(env, b, i), b.body[i])
  {
  }

  lemma OwnPath(env: Env, b: Block)
    requires !Panics(env, b)
    ensures env.paths + {Wanted(env, b.name)} <= After(env, b).paths
  {
    if b.Nested? { BodyGrows(Inside(env, b.name), b, 0, |b.body|); }
  }

  lemma {:induction false} BodyGrows(env: Env, b: Block, m: nat, n: nat)
    requires b.Nested? && m <= n <= |b.body|
    ensures AfterBody(env, b, m).paths <= AfterBody(env, b, n).paths
    decreases b, n
  {
    if m < n {
      BodyGrows(env, b, m, n - 1);
      var here, inner := AfterBody(env, b, n - 1), b.body[n - 1];
      if inner.Nested? && here.frameRoom > 0 && here.activeRoom > 0 {
        BodyGrows(Inside(here, inner.name), inner, 0, |inner.body|);
      }
    }
  }

  method InterpretBody(p: PathSystem, b: Block) returns (panicked: bool)
    requires b.Nested? && p.Valid() && p.Canonical() && Segmented(b) && TopNotExtended(p.frameStack.Contents())
    modifies p.Repr()
    ensures panicked == exists i :: 0 <= i < |b.body| && Panics(AfterBody(old(EnvOf(p)), b, i), b.body[i])
    ensures !panicked ==>
        && p.Valid() && p.Canonical() && old(p.roots) <= p.roots && old(p.Paths()) <= p.Paths()
        && EnvOf(p) == AfterBody(old(EnvOf(p)), b, |b.body|)
    ensures !panicked ==>
        p.activePaths.Contents() == old(p.activePaths.Contents())
          && p.frameStack.Contents() == old(p.frameStack.Contents())
    decreases b, 0, 0
  {
    hide Table, CanonicalTable, Contents, SegmentsOf, Panics, After, AsSet, EnvOf;
    hide PathSystem.ActiveOk, PathSystem.Canonical, PathSystem.Paths, TopNotExtended;
    ghost var env := EnvOf(p);
    panicked := false;
    for i := 0 to |b.body|
      invariant p.Valid() && p.Canonical() && old(p.roots) <= p.roots && old(p.Paths()) <= p.Paths()
      invariant p.activePaths.Contents() == old(p.activePaths.Contents())
          && p.frameStack.Contents() == old(p.frameStack.Contents())
      invariant EnvOf(p) == AfterBody(env, b, i)
      invariant forall j :: 0 <= j < i ==> !Panics(AfterBody(env, b, j), b.body[j])
    {
      panicked := Interpret(p, b.body[i]);
      if panicked { return; }
    }
  }

  // ----- looking a name up in the enclosing scopes

  datatype Scope = Scope(path: nat, nameSystem: Option<nat>)

  ghost predicate Ordered(roots: seq<Root>) { forall id :: 0 < id < |roots| ==> roots[id].owner < id }

  /** A path, the path that owns it, the path that owns that one, and so on, without the final none. */
  ghost function Owners(roots: seq<Root>, p: nat): (chain: seq<nat>)
    requires p < |roots| && Ordered(roots)
    ensures forall k :: 0 <= k < |chain| ==> 0 < chain[k] < |roots|
  {
    if p == 0 then [] else [p] + Owners(roots, roots[p].owner)
  }

  /** From a path that is not built in, the walk goes through ever shorter beginnings of it. */
  lemma {:induction false} OwnersAreBeginnings(roots: seq<Root>, text: seq<Byte>, p: nat, k: nat)
    requires Table(roots, text) && CanonicalTable(roots, text) && p < |roots|
    requires k + 1 < |Owners(roots, p)| && Owners(roots, p)[k] >= 3
    ensures Contents(roots, text)[Owners(roots, p)[k + 1]] < Contents(roots, text)[Owners(roots, p)[k]]
  {
    if k > 0 {
      OwnersAreBeginnings(roots, text, roots[p].owner, k - 1);
    }
  }

  /** A path that was inserted is followed on the walk by the path one segment shorter, if that path was there, and by
      none if it was not. */
  lemma InsertedIsFollowed(roots: seq<Root>, text: seq<Byte>, r: nat, name: seq<Byte>)
    requires Table(roots, text) && 0 < r < |roots| && Encloses(Contents(roots, text)[..r], roots[r].owner, name)
    ensures var chain, c := Owners(roots, r), Contents(roots, text);
            if |name| > 4 && name[..|name| - 4] in c[1..r]
            then |chain| > 1 && c[chain[1]] == name[..|name| - 4]
            else chain == [r]
  {
    assert Contents(roots, text)[..r][1..] == Contents(roots, text)[1..r];
    assert Owners(roots, r) == [r] + Owners(roots, roots[r].owner);
  }

  ghost function FirstScope(scopes: seq<Scope>, path: nat): (r: Option<Scope>)
    ensures r.None? <==> forall i :: 0 <= i < |scopes| ==> scopes[i].path != path
    ensures r.Some? ==> r.value in scopes && r.value.path == path
  {
    if scopes == [] then None
    else if scopes[0].path == path then Some(scopes[0])
    else FirstScope(scopes[1..], path)
  }

  lemma {:induction false} FirstScopeAt(scopes: seq<Scope>, path: nat, i: nat)
    requires i < |scopes| && scopes[i].path == path && forall j :: 0 <= j < i ==> scopes[j].path != path
    ensures FirstScope(scopes, path) == Some(scopes[i])
  {
    if i > 0 { FirstScopeAt(scopes[1..], path, i - 1); }
  }

  method FindScope(scopes: seq<Scope>, path: nat) returns (r: Option<Scope>)
    ensures r == FirstScope(scopes, path)
  {
    for i := 0 to |scopes|
      invariant forall j :: 0 <= j < i ==> scopes[j].path != path
    {
      if scopes[i].path == path {
        FirstScopeAt(scopes, path, i);
        return Some(scopes[i]);
      }
    }
    return None;
  }

  /** Scopes refer to name systems that were handed out. */
  ghost predicate Known<V>(scopes: seq<Scope>, names: NameSystem<V>)
    reads names
  {
    forall s :: s in scopes && s.nameSystem.Some? ==> s.nameSystem.value < names.numSystems
  }

  /** What the scope of a path says about a name: there may be no scope, or no value in it. */
  ghost function Says<V>(scopes: seq<Scope>, names: NameSystem<V>, path: nat, name: Name): Option<Option<V>>
    requires names.Valid() && Known(scopes, names)
    reads names, names.names, names.names.buffer
  {
    match FirstScope(scopes, path)
    case None => None
    case Some(s) => Some(if s.nameSystem.Some? then FirstMatch(names.List(s.nameSystem.value), name) else None)
  }

  /** One round of the walk. */
  method Ask<V>(scopes: seq<Scope>, names: NameSystem<V>, path: nat, name: Name) returns (r: Option<Option<V>>)
    requires names.Valid() && Known(scopes, names)
    ensures r == Says(scopes, names, path, name)
  {
    hide FirstMatch, Gathered;
    var scope := FindScope(scopes, path);
    match scope {
      case None => return None;
      case Some(s) =>
        var v := None;
        if s.nameSystem.Some? {
          v := names.Get(s.nameSystem.value, name);
        }
        return Some(v);
    }
  }

  lemma OwnersStep(roots: seq<Root>, p: nat)
    requires 0 < p < |roots| && Ordered(roots)
    ensures roots[p].owner < p && Owners(roots, p) == [p] + Owners(roots, roots[p].owner)
  {
  }

  /** What the first scope of the chain says that has something to say; that there is no value at the end. */
  ghost function Nearest<V>(scopes: seq<Scope>, names: NameSystem<V>, chain: seq<nat>, name: Name): Option<Option<V>>
    requires names.Valid() && Known(scopes, names)
    reads names, names.names, names.names.buffer
  {
    if chain == [] then Some(None)
    else if Says(scopes, names, chain[0], name) != Some(None) then Says(scopes, names, chain[0], name)
    else Nearest(scopes, names, chain[1..], name)
  }

  /** The value comes from the first path of the chain whose scope has one, when every path before has a scope. */
  lemma {:induction false} NearestIsFirst<V>(scopes: seq<Scope>, names: NameSystem<V>,
                                             chain: seq<nat>, k: nat, name: Name)
    requires names.Valid() && Known(scopes, names)
    requires k <= |chain| && forall j :: 0 <= j < k ==> Says(scopes, names, chain[j], name) == Some(None)
    ensures k == |chain| ==> Nearest(scopes, names, chain, name) == Some(None)
    ensures k < |chain| && Says(scopes, names, chain[k], name) != Some(None) ==>
              Nearest(scopes, names, chain, name) == Says(scopes, names, chain[k], name)
  {
    hide Says;
    if k > 0 {
      NearestIsFirst(scopes, names, chain[1..], k - 1, name);
    }
  }

  /** The walk of `unwrap_namestring` ends for every path, with the value in the nearest scope that has one.
      It panics exactly when it comes to a path without a scope first. */
  method LookUp<V>(p: PathSystem, scopes: seq<Scope>, names: NameSystem<V>, start: nat, name: Name)
    returns (r: Option<V>, panicked: bool)
    requires p.Valid() && names.Valid() && start < |p.roots|
    requires Known(scopes, names)
    ensures (if panicked then None else Some(r)) == Nearest(scopes, names, Owners(p.roots, start), name)
    ensures panicked ==> r.None?
  {
    var searchPath: nat := start;
    assert Ordered(p.roots);
    while searchPath != 0
      invariant searchPath < |p.roots|
      invariant Nearest(scopes, names, Owners(p.roots, start), name)
          == Nearest(scopes, names, Owners(p.roots, searchPath), name)
      decreases searchPath
    {
      hide *;
      OwnersStep(p.roots, searchPath);
      NearestStep(scopes, names, Owners(p.roots, searchPath), name);
      assert Owners(p.roots, searchPath)[1..] == Owners(p.roots, p.roots[searchPath].owner);
      var said := Ask(scopes, names, searchPath, name);
      if said != Some(None) {
        return if said.Some? then said.value else None, said.None?;
      }
      searchPath := p.roots[searchPath].owner;
    }
    return None, false;
  }

  lemma NearestStep<V>(scopes: seq<Scope>, names: NameSystem<V>, chain: seq<nat>, name: Name)
    requires chain != [] && names.Valid() && Known(scopes, names)
    ensures Nearest(scopes, names, chain, name) ==
            if Says(scopes, names, chain[0], name) != Some(None) then Says(scopes, names, chain[0], name)
            else Nearest(scopes, names, chain[1..], name)
  {
  }

  /** The value of a name as `unwrap_namestring` looks for it: in the scopes of the chain, and when each of them has
      been asked in vain, in its devices. None stands for a panic, which is how the search ends without a value. */
  ghost function Resolved<V>(scopes: seq<Scope>, devices: seq<Scope>, names: NameSystem<V>,
                             chain: seq<nat>, name: Name): Option<V>
    requires names.Valid() && Known(scopes, names) && Known(devices, names)
    reads names, names.names, names.names.buffer
  {
    match Nearest(scopes, names, chain, name)
    case Some(Some(v)) => Some(v)
    case Some(None) => if Nearest(devices, names, chain, name).Some? then Nearest(devices, names, chain, name).value
                       else None
    case None => None
  }

  /** Devices are kept like scopes, in a vector of their own. Names of several segments and absolute ones panic. */
  method UnwrapNameString<V>(p: PathSystem, scopes: seq<Scope>, devices: seq<Scope>, names: NameSystem<V>,
                             current: nat, n: NameString)
    returns (r: Option<V>)
    requires p.Valid() && names.Valid() && current < |p.roots| && Known(scopes, names) && Known(devices, names)
    ensures r == if n.Single? && !n.absolute then Resolved(scopes, devices, names, Owners(p.roots, current), n.name)
                 else None
  {
    hide Nearest, Owners;
    if !n.Single? || n.absolute {
      return None;
    }
    var v, panicked := LookUp(p, scopes, names, current, n.name);
    if panicked || v.Some? {
      return v;
    }
    v, panicked := LookUp(p, devices, names, current, n.name);
    return if panicked then None else v;
  }

  /** The nearest scope that has a value decides, whatever the devices say; a device is heard when every path of the
      chain has a scope and none of them has a value. */
  lemma ScopesBeforeDevices<V>(scopes: seq<Scope>, devices: seq<Scope>, names: NameSystem<V>,
                               chain: seq<nat>, k: nat, name: Name, v: V)
    requires names.Valid() && Known(scopes, names) && Known(devices, names) && k < |chain|
    ensures Says(scopes, names, chain[k], name) == Some(Some(v))
            && (forall j :: 0 <= j < k ==> Says(scopes, names, chain[j], name) == Some(None)) ==>
              Resolved(scopes, devices, names, chain, name) == Some(v)
    ensures Says(devices, names, chain[k], name) == Some(Some(v))
            && (forall j :: 0 <= j < |chain| ==> Says(scopes, names, chain[j], name) == Some(None))
            && (forall j :: 0 <= j < k ==> Says(devices, names, chain[j], name) == Some(None)) ==>
              Resolved(scopes, devices, names, chain, name) == Some(v)
  {
    hide Says, Nearest;
    if forall j :: 0 <= j < k ==> Says(scopes, names, chain[j], name) == Some(None) {
      NearestIsFirst(scopes, names, chain, k, name);
    }
    if forall j :: 0 <= j < |chain| ==> Says(scopes, names, chain[j], name) == Some(None) {
      NearestIsFirst(scopes, names, chain, |chain|, name);
    }
    if forall j :: 0 <= j < k ==> Says(devices, names, chain[j], name) == Some(None) {
      NearestIsFirst(devices, names, chain, k, name);
    }
  }

  /** The devices are only asked when every path up to the root has a scope: one path without a scope, and the value
      in a device on the way to it, or further up, is out of reach. */
  lemma DeviceNeedsScopes<V>(scopes: seq<Scope>, devices: seq<Scope>, names: NameSystem<V>,
                             chain: seq<nat>, k: nat, name: Name)
    requires names.Valid() && Known(scopes, names) && Known(devices, names) && k < |chain|
    requires FirstScope(scopes, chain[k]) == None
    requires forall j :: 0 <= j < k ==> Says(scopes, names, chain[j], name) == Some(None)
    ensures Resolved(scopes, devices, names, chain, name) == None
  {
    NearestIsFirst(scopes, names, chain, k, name);
  }
}
