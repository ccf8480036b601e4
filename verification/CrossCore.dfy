/** From the host's page tables to those of every other core. */
module CrossCore {
  import opened Memory
  import opened Allocators
  import opened Paging
  import opened PagingSteps
  import opened PagerEffects
  import opened Plans
  import opened RegionEffects
  import opened Pagers
  import opened Mapping
  import opened FileTableSync
  import opened Mailboxes

  // ----- the handler on real page tables

  class IpiDescriptorPacket {
    var requestType: RequestType
    var status: Status
    var data: VMemSync

    constructor (data: VMemSync)
      ensures requestType == SyncVMem && status == Pending && this.data == data
    {
      this.requestType := SyncVMem;
      this.status := Pending;
      this.data := data;
    }
  }

  const KERNEL_FLAGS := NO_FLAGS.(present := true, rw := true)

  /** `kernel_ipi_dst` for a request to map pages. It panics when a page cannot be mapped. */
  method KernelIpiDst(ipi: IpiDescriptorPacket, pager: Pager, a: Allocator) returns (panicked: bool, ghost done: nat)
    requires pager.Uses(a) && ipi.requestType != SummonApplication && ipi.data.paddr.length / PAGE <= SPACE_PAGES
    requires ipi.requestType == SyncVMem && Mappable(ipi.data.vaddr, ipi.data.paddr.base, KERNEL_FLAGS) ==>
               pager.Affords(SmallPlan(ipi.data.vaddr, ipi.data.paddr.length / PAGE), a)
    modifies ipi, pager`tables, pager.memory, a`current, a.bitmap
    ensures pager.Uses(a) && ipi.data == old(ipi.data)
    ensures var plan := SmallPlan(ipi.data.vaddr, ipi.data.paddr.length / PAGE);
            && (!panicked <==> old(ipi.requestType) == NoRequest || plan == []
                               || (Mappable(ipi.data.vaddr, ipi.data.paddr.base, KERNEL_FLAGS)
                                   && Enough(old(pager.tables.Keys), old(a.FreeFrames()), plan)))
            && (!panicked && old(ipi.requestType) == SyncVMem ==> done == |plan|)
            && (old(ipi.requestType) == NoRequest ==> done == 0)
    ensures if panicked then ipi.status == Received && ipi.requestType == SyncVMem
            else ipi.status == Completed && ipi.requestType == NoRequest
    ensures RegionEffect(old(pager.Now(a)), pager.Now(a), pager.cr3,
                         Region(VirtualPage(ipi.data.vaddr), done, ipi.data.paddr.base / PAGE, true, 0, 0))
    ensures RegionLeaves(old(pager.Now(a)), pager.Now(a),
                         Region(VirtualPage(ipi.data.vaddr), done, ipi.data.paddr.base / PAGE, true, 0, 0),
                         NO_FLAGS.(present := true, rw := true))
  {
    hide RegionEffect, RegionLeaves, Used, Unused, FrameRange, Mappable, Tree, Enough;
    ipi.status := Received;
    panicked, done := false, 0;
    StartRegion(pager, a, Region(VirtualPage(ipi.data.vaddr), 0, ipi.data.paddr.base / PAGE, true, 0, 0), KERNEL_FLAGS);
    match ipi.requestType {
      case NoRequest =>
      case SyncVMem =>
        var r;
        r, done := MapPages(pager, a, ipi.data.vaddr, ipi.data.paddr.base,
          ipi.data.paddr.length / 0x1000, KERNEL_FLAGS);
        if r.Some? {
          panicked := true;
          return;
        }
    }
    ipi.requestType := NoRequest;
    ipi.status := Completed;
  }

  /** After the handler, the hardware walk of each page of the request gives the frame of the request, if every entry
      that was on its path is present. */
  lemma HandledPagesTranslate(s0: Space, s1: Space, root: nat, b: VMemSync, i: nat)
    requires b.paddr.length / PAGE <= SPACE_PAGES && i < |Expand(b)|
    requires RegionEffect(s0, s1, root,
        Region(VirtualPage(b.vaddr), b.paddr.length / PAGE, b.paddr.base / PAGE, true, 0, 0))
    ensures var at := Translate(Expand(b)[i].0 * PAGE);
            Walk(s1.mem, root, at) == if PathOpen(s0.mem, root, at) then Some(Expand(b)[i].1) else None
  {
    hide Walk, PathOpen, UpperOpen, Kept, HugeAt, Offset, Translate;
    OffsetOfTranslate(b.vaddr, i);
    SamePage(b.vaddr + i * 0x1000, Expand(b)[i].0);
  }

  lemma SamePage(virt: nat, v: nat)
    requires virt / PAGE == v
    ensures Translate(v * PAGE) == Translate(virt)
  {
  }

  // ----- the page tables of all cores, in one physical memory

  /** What belongs to a core: its root table and the tables of its pager. */
  datatype CoreTables = CoreTables(root: nat, tables: Tables)

  /** All cores, and the rest of the kernel, take frames from one allocator. */
  datatype Machine = Machine(mem: Frames, cores: map<nat, CoreTables>, used: set<nat>, range: set<nat>)

  function SpaceOf(x: Machine, c: nat): Space
    requires c in x.cores
  {
    Space(x.mem, x.cores[c].tables, x.used, x.range)
  }

  ghost predicate CoreOk(x: Machine, c: nat)
    requires c in x.cores
  {
    var k := x.cores[c];
    Tree(x.mem, k.tables) && Root in k.tables && k.tables[Root] == k.root && k.tables.Values <= x.used
  }

  /** Each core has a tree of tables of its own, all of them in use. */
  ghost predicate Sound(x: Machine) {
    && x.used <= x.range
    && (forall c :: c in x.cores ==> CoreOk(x, c))
    && forall c, d :: c in x.cores && d in x.cores && c != d ==> x.cores[c].tables.Values !! x.cores[d].tables.Values
  }

  ghost predicate OnlyCore(x: Machine, y: Machine, c: nat) {
    && c in x.cores && c in y.cores && y.cores == x.cores[c := y.cores[c]] && y.cores[c].root == x.cores[c].root
    && y.range == x.range
  }

  /** The rest of the kernel may take and give back frames and write to them, but not to the tables of the cores. */
  ghost predicate Elsewhere(x: Machine, y: Machine) {
    && y.cores == x.cores && y.used <= y.range == x.range
    && forall c :: c in x.cores ==> x.cores[c].tables.Values <= y.used && SameFrames(x.mem, y.mem, x.cores[c].tables)
  }

  /** Core `c` changes its own tables, with the effect `page_4_kb` has when it succeeds. */
  ghost predicate MapsOne(x: Machine, y: Machine, c: nat, virt: nat, frame: nat) {
    && OnlyCore(x, y, c)
    && Mapped(SpaceOf(x, c), SpaceOf(y, c), x.cores[c].root, Translate(virt), frame, true)
  }

  /** Or when it fails. */
  ghost predicate FailsOne(x: Machine, y: Machine, c: nat) {
    && OnlyCore(x, y, c)
    && Prepared(SpaceOf(x, c), SpaceOf(y, c), x.cores[c].root, true)
  }

  /** The handler of core `c` maps page `i` of its request in this step of the mailbox. */
  ghost predicate MapsPage(s: State, c: nat, i: nat, s': State) {
    && HandlerMoves(s, c, s') && s.cores[c].handler == MappingPage(i)
    && i < s.cores[c].packet.data.paddr.length / PAGE
  }

  ghost predicate Quietly(s: State, s': State) {
    (forall c, i: nat :: !MapsPage(s, c, i, s')) && forall c :: !HandlerPanics(s, c, s')
  }

  /** What a step of the mailbox does to the page tables. */
  ghost predicate TablesStep(s: State, s': State, x: Machine, y: Machine) {
    || (exists c, i: nat :: MapsPage(s, c, i, s') && var b := s.cores[c].packet.data;
                       MapsOne(x, y, c, b.vaddr + i * 0x1000, b.paddr.base / PAGE + i))
    || (exists c :: HandlerPanics(s, c, s') && FailsOne(x, y, c))
    || (Quietly(s, s') && Elsewhere(x, y))
  }

  ghost predicate Realised(states: seq<State>, machines: seq<Machine>) {
    && |machines| == |states| > 0 && Sound(machines[0]) && machines[0].cores.Keys == states[0].cores.Keys
    && forall k :: 0 <= k < |states| - 1 ==> TablesStep(states[k], states[k + 1], machines[k], machines[k + 1])
  }

  // ----- the page map of the mailbox model is what the hardware sees

  /** A window of at most 2^36 virtual pages. */
  datatype Window = Window(first: nat, pages: nat) {
    predicate Has(p: nat) { first <= p < first + pages }
  }

  /** In the window the hardware translates as the page map says, on every path that is open. */
  ghost predicate Agrees(pages: map<nat, nat>, m: Frames, root: nat, w: Window) {
    forall p: nat :: w.Has(p) && p in pages && PathOpen(m, root, Translate(p * PAGE)) ==>
      Walk(m, root, Translate(p * PAGE)) == Some(pages[p])
  }

  ghost predicate CoreAgrees(s: State, x: Machine, c: nat, w: Window) {
    c in s.cores && c in x.cores && Agrees(s.cores[c].pages, x.mem, x.cores[c].root, w)
  }

  ghost predicate InWindow(b: VMemSync, w: Window) { forall e :: e in Expand(b) ==> w.Has(e.0) }

  lemma WindowInjective(w: Window, p: nat, q: nat)
    requires w.pages <= SPACE_PAGES && w.Has(p) && w.Has(q) && Translate(p * PAGE) == Translate(q * PAGE)
    ensures p == q
  {
    hide Translate;
    PageNoOfTranslate(p * PAGE);
    PageNoOfTranslate(q * PAGE);
    assert p * PAGE / PAGE == p && q * PAGE / PAGE == q;
  }

  /** Mapping one page of a request keeps the agreement of the core that does it. */
  lemma MapKeepsAgreement(pages: map<nat, nat>, s0: Space, s1: Space, root: nat, w: Window, b: VMemSync, i: nat)
    requires w.pages <= SPACE_PAGES && InWindow(b, w) && i < b.paddr.length / PAGE
    requires Agrees(pages, s0.mem, root, w)
    requires Mapped(s0, s1, root, Translate(b.vaddr + i * 0x1000), b.paddr.base / PAGE + i, true)
    ensures Agrees(pages[b.vaddr / PAGE + i := b.paddr.base / PAGE + i], s1.mem, root, w)
  {
    hide Walk, PathOpen, UpperOpen, Translate, Kept, Extends, NoNewHuge;
    var v := b.vaddr / PAGE + i;
    SamePage(b.vaddr + i * 0x1000, v);
    assert w.Has(v) by { assert Expand(b)[i] in Expand(b); }
    forall p: nat | w.Has(p) && p != v ensures Translate(p * PAGE) != Translate(v * PAGE) {
      if Translate(p * PAGE) == Translate(v * PAGE) { WindowInjective(w, p, v); }
    }
  }

  lemma SameTranslationKeepsAgreement(pages: map<nat, nat>, m0: Frames, m1: Frames, root: nat, w: Window)
    requires Agrees(pages, m0, root, w)
    requires SameWalk(m0, m1, root) && SameOpen(m0, m1, root)
    ensures Agrees(pages, m1, root, w)
  {
    hide Walk, PathOpen, UpperOpen, Translate;
  }

  /** A core that changes its own tables leaves those of the others alone, although it takes frames from the same
      allocator. */
  lemma OthersKeep(x: Machine, y: Machine, c: nat, d: nat)
    requires Sound(x) && OnlyCore(x, y, c) && d in x.cores && c != d
    requires Kept(SpaceOf(x, c), SpaceOf(y, c))
    ensures d in y.cores && y.cores[d] == x.cores[d] && CoreOk(y, d)
    ensures y.cores[c].tables.Values !! y.cores[d].tables.Values
    ensures SameWalk(x.mem, y.mem, x.cores[d].root) && SameOpen(x.mem, y.mem, x.cores[d].root)
  {
    hide Tree, SameWalk, SameOpen;
    assert CoreOk(x, d) && CoreOk(x, c);
    assert x.cores[c].tables.Values !! x.cores[d].tables.Values;
    assert Alien(SpaceOf(x, c), x.cores[d].tables);
    AlienUntouched(SpaceOf(x, c), SpaceOf(y, c), x.cores[d].tables);
    forall g | g in x.cores[d].tables.Values ensures g in y.used && g !in y.cores[c].tables.Values {
      assert Foreign(SpaceOf(y, c), g) && g in x.used;
    }
  }

  lemma StaysSound(x: Machine, y: Machine, c: nat)
    requires Sound(x) && OnlyCore(x, y, c)
    requires Kept(SpaceOf(x, c), SpaceOf(y, c))
    ensures Sound(y)
  {
    hide Tree, SameWalk, SameOpen;
    assert CoreOk(x, c);
    TreeParts(y.mem, y.cores[c].tables);
    forall d | d in y.cores ensures CoreOk(y, d) && (d != c ==> y.cores[c].tables.Values !! y.cores[d].tables.Values) {
      if d != c { OthersKeep(x, y, c, d); }
    }
  }

  /** What the rest of the kernel does leaves all cores alone. */
  lemma ElsewhereKeeps(x: Machine, y: Machine, d: nat)
    requires Sound(x) && Elsewhere(x, y) && d in x.cores
    ensures Sound(y) && SameWalk(x.mem, y.mem, x.cores[d].root) && SameOpen(x.mem, y.mem, x.cores[d].root)
  {
    hide Tree, SameWalk, SameOpen, SameFrames;
    forall c | c in x.cores
      ensures CoreOk(y, c)
      ensures SameWalk(x.mem, y.mem, x.cores[c].root) && SameOpen(x.mem, y.mem, x.cores[c].root)
    {
      assert CoreOk(x, c);
      SameFramesSameWalk(x.mem, y.mem, x.cores[c].tables);
    }
  }

  /** What a step keeps of core `d`: the root, which paths are open, and the agreement. */
  ghost predicate StepKeeps(s': State, x: Machine, y: Machine, d: nat, w: Window) {
    && Sound(y) && y.cores.Keys == x.cores.Keys && d in x.cores && y.cores[d].root == x.cores[d].root
    && SameOpen(x.mem, y.mem, x.cores[d].root) && CoreAgrees(s', y, d, w)
  }

  lemma MapStepAgrees(s: State, s': State, x: Machine, y: Machine, c: nat, i: nat, d: nat, w: Window)
    requires MapsPage(s, c, i, s') && Sound(x) && w.pages <= SPACE_PAGES && CoreAgrees(s, x, d, w)
    requires var b := s.cores[c].packet.data;
             MapsOne(x, y, c, b.vaddr + i * 0x1000, b.paddr.base / PAGE + i) && InWindow(b, w)
    ensures StepKeeps(s', x, y, d, w)
  {
    hide Agrees, InWindow, Kept, SameWalk, SameOpen,
         Expand, Translate, Sound, PointUpdate, Extends, NoNewHuge;
    StaysSound(x, y, c);
    if d == c {
      MapKeepsAgreement(s.cores[c].pages, SpaceOf(x, c), SpaceOf(y, c), x.cores[c].root, w, s.cores[c].packet.data, i);
    } else {
      OthersKeep(x, y, c, d);
      SameTranslationKeepsAgreement(s.cores[d].pages, x.mem, y.mem, x.cores[d].root, w);
    }
  }

  lemma FailedStepAgrees(s: State, s': State, x: Machine, y: Machine, c: nat, d: nat, w: Window)
    requires HandlerPanics(s, c, s') && Sound(x) && FailsOne(x, y, c) && CoreAgrees(s, x, d, w)
    ensures StepKeeps(s', x, y, d, w)
  {
    hide Agrees, Kept, SameWalk, SameOpen, Sound, Extends, NoNewHuge;
    StaysSound(x, y, c);
    if d != c { OthersKeep(x, y, c, d); }
    SameTranslationKeepsAgreement(s.cores[d].pages, x.mem, y.mem, x.cores[d].root, w);
  }

  /** One step of the mailbox keeps the agreement of every core. */
  lemma StepKeepsAgreement(s: State, s': State, x: Machine, y: Machine, d: nat, w: Window)
    requires TablesStep(s, s', x, y) && Sound(x) && SamePagesElsewhere(s, s')
    requires forall c, i: nat :: MapsPage(s, c, i, s') ==> InWindow(s.cores[c].packet.data, w)
    requires w.pages <= SPACE_PAGES && CoreAgrees(s, x, d, w)
    ensures StepKeeps(s', x, y, d, w)
  {
    hide Agrees, InWindow, Sound, MapsOne, FailsOne;
    if c, i: nat :| MapsPage(s, c, i, s') && MapsOne(x, y, c, s.cores[c].packet.data.vaddr + i * 0x1000,
                                                     s.cores[c].packet.data.paddr.base / PAGE + i)
    {
      MapStepAgrees(s, s', x, y, c, i, d, w);
    } else if c :| HandlerPanics(s, c, s') && FailsOne(x, y, c) {
      FailedStepAgrees(s, s', x, y, c, d, w);
    } else {
      assert Quietly(s, s') && Elsewhere(x, y);
      ElsewhereKeeps(x, y, d);
      SameTranslationKeepsAgreement(s.cores[d].pages, x.mem, y.mem, x.cores[d].root, w);
    }
  }

  /** A step that maps no page changes no page map. */
  ghost predicate SamePagesElsewhere(s: State, s': State) {
    && s'.cores.Keys == s.cores.Keys
    && (Quietly(s, s') ==> forall c :: c in s.cores ==> s'.cores[c].pages == s.cores[c].pages)
  }

  lemma StepPages(work: Work, s: State, s': State)
    requires Step(work, s, s')
    ensures SamePagesElsewhere(s, s')
  {
    if s.next < |work| && work[s.next].0 in s.cores && s' == SenderStep(work, s) {
      SenderPages(work, s);
    } else if c :| HandlerMoves(s, c, s') {
      if Quietly(s, s') {
        match s.cores[c].handler
        case MappingPage(i) => assert !MapsPage(s, c, i, s');
        case _ =>
      }
    }
  }

  lemma SenderPages(work: Work, s: State)
    requires s.next < |work| && work[s.next].0 in s.cores
    ensures var s' := SenderStep(work, s);
            s'.cores.Keys == s.cores.Keys && forall c :: c in s.cores ==> s'.cores[c].pages == s.cores[c].pages
  {
  }

  // ----- the whole synchronisation

  /** Each request in turn goes to each core in turn. */
  function Broadcast(sent: seq<VMemSync>, ids: seq<nat>): Work {
    if sent == [] then [] else Broadcast(sent[..|sent| - 1], ids) + ToAll(sent[|sent| - 1], ids)
  }

  function ToAll(b: VMemSync, ids: seq<nat>): Work { seq(|ids|, i requires 0 <= i < |ids| => (ids[i], b)) }

  ghost predicate Unique(ids: seq<nat>) { forall i, j :: 0 <= i < j < |ids| ==> ids[i] != ids[j] }

  lemma {:induction false} ServedPrefix(xs: Work, ys: Work, n: nat, c: nat, pages: map<nat, nat>)
    requires n <= |xs|
    ensures Served(xs + ys, n, c, pages) == Served(xs, n, c, pages)
  {
    hide Apply, Expand;
    if n > 0 {
      ServedPrefix(xs, ys, n - 1, c, pages);
      assert (xs + ys)[n - 1] == xs[n - 1];
    }
  }

  lemma {:induction false} ServedToAll(xs: Work, b: VMemSync, ids: seq<nat>, n: nat, c: nat, pages: map<nat, nat>)
    requires n <= |ids| && Unique(ids)
    ensures var before := Served(xs, |xs|, c, pages);
            Served(xs + ToAll(b, ids), |xs| + n, c, pages) == if c in ids[..n] then Apply(before, Expand(b)) else before
  {
    hide Apply, Expand;
    if n == 0 {
      ServedPrefix(xs, ToAll(b, ids), |xs|, c, pages);
    } else {
      ServedToAll(xs, b, ids, n - 1, c, pages);
      ServedNext(xs + ToAll(b, ids), |xs| + n - 1, c, pages);
      assert (xs + ToAll(b, ids))[|xs| + n - 1] == (ids[n - 1], b);
      assert ids[..n] == ids[..n - 1] + [ids[n - 1]];
    }
  }

  lemma {:induction false} ApplyConcat(pages: map<nat, nat>, xs: seq<(nat, nat)>, ys: seq<(nat, nat)>)
    ensures Apply(pages, xs + ys) == Apply(Apply(pages, xs), ys)
  {
    if ys == [] {
      assert xs + ys == xs;
    } else {
      var n := |ys| - 1;
      ApplyConcat(pages, xs, ys[..n]);
      assert (xs + ys)[..|xs| + n] == xs + ys[..n];
    }
  }

  lemma {:induction false} ServedBroadcast(sent: seq<VMemSync>, ids: seq<nat>, c: nat, pages: map<nat, nat>)
    requires Unique(ids) && c in ids
    ensures var work := Broadcast(sent, ids); Served(work, |work|, c, pages) == Apply(pages, ExpandAll(sent))
  {
    hide Expand;
    if sent != [] {
      var n := |sent| - 1;
      ServedBroadcast(sent[..n], ids, c, pages);
      ServedToAll(Broadcast(sent[..n], ids), sent[n], ids, |ids|, c, pages);
      assert ids[..|ids|] == ids;
      ApplyConcat(pages, ExpandAll(sent[..n]), Expand(sent[n]));
    }
  }

  /** The mapping of page `p` once the pages from `v` on have been applied. */
  lemma {:induction false} ApplyPages(pages: map<nat, nat>, v: nat, frames: seq<nat>, p: nat)
    ensures var after := Apply(pages, PagesFrom(v, frames));
            if v <= p < v + |frames| then p in after && after[p] == frames[p - v]
            else (p in after <==> p in pages) && (p in pages ==> after[p] == pages[p])
  {
    if frames != [] {
      var n := |frames| - 1;
      ApplyPages(pages, v, frames[..n], p);
      assert PagesFrom(v, frames)[..n] == PagesFrom(v, frames[..n]);
      assert Apply(pages, PagesFrom(v, frames)) == Apply(pages, PagesFrom(v, frames[..n]))[v + n := frames[n]];
    }
  }

  // ----- every core agrees with the host

  /** In every state of every run, the hardware walk of every core agrees in the window with the model's page map. */
  lemma {:induction false} CoresAgree(work: Work, states: seq<State>, machines: seq<Machine>, k: nat, c: nat, w: Window)
    requires Run(work, states) && Realised(states, machines) && k < |states| && w.pages <= SPACE_PAGES
    requires forall j :: 0 <= j < |work| ==> InWindow(work[j].1, w)
    requires CoreAgrees(states[0], machines[0], c, w)
    ensures Sound(machines[k]) && machines[k].cores.Keys == states[k].cores.Keys
    ensures CoreAgrees(states[k], machines[k], c, w) && machines[k].cores[c].root == machines[0].cores[c].root
    ensures SameOpen(machines[0].mem, machines[k].mem, machines[0].cores[c].root)
  {
    hide PathOpen, UpperOpen, Sound, CoreAgrees, TablesStep, Step, InWindow, Start;
    if k > 0 {
      CoresAgree(work, states, machines, k - 1, c, w);
      var s, s' := states[k - 1], states[k];
      assert Step(work, states[k - 1], states[k - 1 + 1]);
      assert TablesStep(states[k - 1], states[k - 1 + 1], machines[k - 1], machines[k - 1 + 1]);
      StepPages(work, s, s');
      forall d, i: nat | d in s.cores && MapsPage(s, d, i, s') ensures InWindow(s.cores[d].packet.data, w) {
        MapperIsBusy(s, d, i, s');
        HandlerServesCurrentRequest(work, states, k - 1, d);
      }
      StepKeepsAgreement(s, s', machines[k - 1], machines[k], c, w);
    }
  }

  lemma MapperIsBusy(s: State, c: nat, i: nat, s': State)
    requires MapsPage(s, c, i, s')
    ensures c in s.cores && !Quiet(s.cores[c])
  {
  }

  /** A frame that is mapped, as far as the path of its address is open. */
  ghost function Reached(m: Frames, root: nat, at: Address, frame: nat): Option<nat> {
    if PathOpen(m, root, at) then Some(frame) else None
  }

  /** Whatever the interleaving: once the host has sent the requests that `Sync` built for the pages from number `v` on,
      every other core translates each of them to the frame that was sent, exactly if the entries that were on its path
      at the start are present, and else not at all. */
  lemma EveryCoreTranslates(sent: seq<VMemSync>, ids: seq<nat>, v: nat, frames: seq<nat>,
                            states: seq<State>, machines: seq<Machine>, i: nat, c: nat)
    requires Unique(ids) && c in ids && ExpandAll(sent) == PagesFrom(v, frames) && |frames| <= SPACE_PAGES
    requires Run(Broadcast(sent, ids), states) && i < |states| && states[i].sender == Finished
    requires Realised(states, machines) && CoreAgrees(states[0], machines[0], c, Window(v, |frames|))
    ensures c in machines[i].cores && machines[i].cores[c].root == machines[0].cores[c].root
    ensures forall p :: v <= p < v + |frames| ==>
              var at, root := Translate(p * PAGE), machines[0].cores[c].root;
              Walk(machines[i].mem, root, at) == Reached(machines[0].mem, root, at, frames[p - v])
  {
    hide PathOpen, UpperOpen, Run, Served, Broadcast, ExpandAll, PagesFrom,
         TablesStep, Sound, Walk, Translate, InWindow;
    var work, w := Broadcast(sent, ids), Window(v, |frames|);
    forall j | 0 <= j < |work| ensures InWindow(work[j].1, w) { RequestInWindow(sent, ids, v, frames, j); }
    CoresAgree(work, states, machines, i, c, w);
    FinishedMeansAllServed(work, states, i, c);
    ServedBroadcast(sent, ids, c, states[0].cores[c].pages);
    var root := machines[0].cores[c].root;
    forall p | v <= p < v + |frames|
      ensures var at := Translate(p * PAGE);
              Walk(machines[i].mem, root, at) == Reached(machines[0].mem, root, at, frames[p - v])
    {
      ApplyPages(states[0].cores[c].pages, v, frames, p);
      CoreIsOk(machines[i], c);
      ClosedLeadsNowhere(machines[i].mem, machines[i].cores[c].tables, Translate(p * PAGE));
      assert w.Has(p);
    }
  }

  lemma CoreIsOk(x: Machine, c: nat)
    requires Sound(x) && c in x.cores
    ensures var k := x.cores[c]; Tree(x.mem, k.tables) && Root in k.tables && k.tables[Root] == k.root
  {
    assert CoreOk(x, c);
  }

  /** Every request of the broadcast is one of those sent, and its pages are among all pages. */
  lemma RequestInWindow(sent: seq<VMemSync>, ids: seq<nat>, v: nat, frames: seq<nat>, j: nat)
    requires ExpandAll(sent) == PagesFrom(v, frames) && j < |Broadcast(sent, ids)|
    ensures InWindow(Broadcast(sent, ids)[j].1, Window(v, |frames|))
  {
    hide Expand, ExpandAll;
    var k := RequestOf(sent, ids, j);
    forall e | e in Expand(sent[k]) ensures v <= e.0 < v + |frames| {
      PageOfRequest(sent, k, e);
      assert e in PagesFrom(v, frames);
    }
  }

  lemma {:induction false} RequestOf(sent: seq<VMemSync>, ids: seq<nat>, j: nat) returns (k: nat)
    requires j < |Broadcast(sent, ids)|
    ensures k < |sent| && Broadcast(sent, ids)[j].1 == sent[k]
  {
    var n := |sent| - 1;
    if j < |Broadcast(sent[..n], ids)| {
      k := RequestOf(sent[..n], ids, j);
    } else {
      k := n;
    }
  }

  lemma {:induction false} PageOfRequest(sent: seq<VMemSync>, k: nat, e: (nat, nat))
    requires k < |sent| && e in Expand(sent[k])
    ensures e in ExpandAll(sent)
  {
    hide Expand;
    var n := |sent| - 1;
    if k < n { PageOfRequest(sent[..n], k, e); }
  }

  /** From the host's page tables to those of every other core: once a synchronisation of the pages `from` to `until`
      of a table is through, each of them whose path was open translates on every other core to the frame
      `get_physical` answered on the host, and like on the host itself exactly when that page is small or the first one
      of a 2 MiB page; the others translate to nothing. */
  lemma EveryCoreAgrees(m: Frames, t: Tables, fixed: nat, from: nat, until: nat, sent: seq<VMemSync>, ids: seq<nat>,
                        states: seq<State>, machines: seq<Machine>, i: nat, c: nat, n: nat)
    requires fixed % PAGE == 0 && Tree(m, t) && from <= n < until <= SPACE_PAGES
    requires forall j :: from <= j < until ==> Answered(m, t, fixed, j)
    requires ExpandAll(sent) == PagesFrom(fixed / PAGE + from, FileFrames(m, t, fixed, from, until))
    requires Unique(ids) && c in ids && Run(Broadcast(sent, ids), states) && i < |states|
        && states[i].sender == Finished
    requires Realised(states, machines)
    requires CoreAgrees(states[0], machines[0], c, Window(fixed / PAGE + from, until - from))
    ensures var at, root := Translate(fixed + n * PAGE), machines[0].cores[c].root;
            var w := Walk(machines[i].mem, root, at);
            && c in machines[i].cores && machines[i].cores[c].root == root
            && w == Reached(machines[0].mem, root, at, FileFrame(m, t, fixed, n))
            && (Backed(m, t, fixed, n) ==>
              (w == Walk(m, t[Root], at) <==>
                PathOpen(machines[0].mem, root, at) && (!HugeAt(m, t, at) || at.page == 0)))
  {
    hide PathOpen, UpperOpen, Run, Broadcast, ExpandAll, PagesFrom, TablesStep,
         Sound, Walk, Translate, Tree, HugeAt, CoreAgrees, Reported;
    var v, frames := fixed / PAGE + from, FileFrames(m, t, fixed, from, until);
    EveryCoreTranslates(sent, ids, v, frames, states, machines, i, c);
    var p := fixed / PAGE + n;
    assert p * PAGE == fixed + n * PAGE;
    assert v <= p < v + |frames|;
    assert frames[p - v] == FileFrame(m, t, fixed, n);
    if Backed(m, t, fixed, n) {
      FileFrameIsHostFrame(m, t, fixed, n);
      assert Walk(m, t[Root], Translate(p * PAGE)) == Some(HostFrame(m, t, fixed, n));
    }
  }
}
