/** Telling the other cores about new pages of the four tables of the file system (vfs/gfs/mod.rs, `sync`), and the
    encoding of page runs on both ends (multithreading/per_processor_function.rs, `kernel_ipi_dst`). */
module FileTableSync {
  import opened Memory
  import opened Paging
  import opened PagerEffects
  import opened PagingSteps
  import opened Pagers
  import opened Mapping

  const GFS_DIRECTORY_FIXED_VADDR: nat := 0xFFFF_8001_0000_0000
  const GFS_FILES_FIXED_VADDR: nat := 0xFFFF_8001_8000_0000
  const GFS_HASHMAP_FIXED_VADDR: nat := 0xFFFF_8002_0000_0000
  const GFS_STRINGS_FIXED_VADDR: nat := 0xFFFF_8002_8000_0000

  /** One request: map `paddr` at `vaddr`. */
  datatype VMemSync = VMemSync(paddr: MemoryBlock, vaddr: nat)

  /** The page mappings a request stands for: pairs of a virtual page number and a frame. */
  function Expand(b: VMemSync): seq<(nat, nat)> {
    seq(b.paddr.length / PAGE,
      i requires 0 <= i < b.paddr.length / PAGE => (b.vaddr / PAGE + i, b.paddr.base / PAGE + i))
  }

  function ExpandAll(bs: seq<VMemSync>): seq<(nat, nat)> {
    if bs == [] then [] else ExpandAll(bs[..|bs| - 1]) + Expand(bs[|bs| - 1])
  }

  /** Consecutive virtual pages with the given frames behind them. */
  function PagesFrom(v: nat, frames: seq<nat>): seq<(nat, nat)> {
    seq(|frames|, i requires 0 <= i < |frames| => (v + i, frames[i]))
  }

  lemma ExpandMore(bs: seq<VMemSync>, b: VMemSync)
    ensures ExpandAll(bs + [b]) == ExpandAll(bs) + Expand(b)
  {
    assert (bs + [b])[..|bs|] == bs;
  }

  lemma {:induction false} ExpandConcat(xs: seq<VMemSync>, ys: seq<VMemSync>)
    ensures ExpandAll(xs + ys) == ExpandAll(xs) + ExpandAll(ys)
  {
    hide Expand;
    if ys == [] {
      assert xs + ys == xs;
    } else {
      var n := |ys| - 1;
      ExpandConcat(xs, ys[..n]);
      assert (xs + ys)[..|xs| + n] == xs + ys[..n];
      assert xs + ys == xs + ys[..n] + [ys[n]];
      ExpandMore(xs + ys[..n], ys[n]);
      assert ExpandAll(ys) == ExpandAll(ys[..n]) + Expand(ys[n]);
    }
  }

  /** One page appended to a request that ends right below it. */
  lemma ExpandLonger(b: VMemSync, v: nat, f: nat)
    requires b.paddr.length % PAGE == 0 && v == b.vaddr / PAGE + b.paddr.length / PAGE
        && f == b.paddr.base / PAGE + b.paddr.length / PAGE
    ensures Expand(b.(paddr := b.paddr.(length := b.paddr.length + PAGE))) == Expand(b) + [(v, f)]
  {
    assert (b.paddr.length + PAGE) / PAGE == b.paddr.length / PAGE + 1;
  }

  lemma ExpandOne(v: nat, f: nat)
    ensures Expand(VMemSync(MemoryBlock(f * PAGE, PAGE), v * PAGE)) == [(v, f)]
  {
  }

  lemma PagesFromMore(v: nat, frames: seq<nat>, f: nat)
    ensures PagesFrom(v, frames + [f]) == PagesFrom(v, frames) + [(v + |frames|, f)]
  {
  }

  /** `get_physical` has an answer for page `i` of the table at `fixed`. */
  ghost predicate Answered(m: Frames, t: Tables, fixed: nat, i: nat) {
    Root in t && TablePos(Translate(fixed + i * PAGE), 2) in t
  }

  ghost function FileFrame(m: Frames, t: Tables, fixed: nat, i: nat): nat
    requires Answered(m, t, fixed, i)
  {
    Reported(m, t, Translate(fixed + i * PAGE))
  }

  ghost predicate AllAnswered(m: Frames, t: Tables, fixed: nat, from: nat, until: nat) {
    forall i :: from <= i < until ==> Answered(m, t, fixed, i)
  }

  ghost function FileFrames(m: Frames, t: Tables, fixed: nat, from: nat, until: nat): (f: seq<nat>)
    requires from <= until && AllAnswered(m, t, fixed, from, until)
    ensures |f| == until - from
    ensures forall i :: from <= i < until ==> f[i - from] == FileFrame(m, t, fixed, i)
    decreases until
  {
    if from == until then [] else FileFrames(m, t, fixed, from, until - 1) + [FileFrame(m, t, fixed, until - 1)]
  }

  lemma OneMoreAnswered(m: Frames, t: Tables, fixed: nat, from: nat, i: nat)
    requires from <= i && AllAnswered(m, t, fixed, from, i) && Answered(m, t, fixed, i)
    ensures AllAnswered(m, t, fixed, from, i + 1)
    ensures var v := fixed / PAGE;
            PagesFrom(v + from, FileFrames(m, t, fixed, from, i + 1))
            == PagesFrom(v + from, FileFrames(m, t, fixed, from, i)) + [(v + i, FileFrame(m, t, fixed, i))]
  {
    hide Answered, FileFrame;
    PagesFromMore(fixed / PAGE + from, FileFrames(m, t, fixed, from, i), FileFrame(m, t, fixed, i));
  }

  lemma NoneMissing(m: Frames, t: Tables, fixed: nat, from: nat)
    ensures AllAnswered(m, t, fixed, from, from) && FileFrames(m, t, fixed, from, from) == []
  {
  }

  lemma OneMissing(m: Frames, t: Tables, fixed: nat, from: nat, i: nat, until: nat)
    requires from <= i < until && !Answered(m, t, fixed, i)
    ensures !AllAnswered(m, t, fixed, from, until)
  {
  }

  /** Page `i` of the table is mapped by the host. */
  ghost predicate Backed(m: Frames, t: Tables, fixed: nat, i: nat) {
    Root in t && Walk(m, t[Root], Translate(fixed + i * PAGE)).Some?
  }

  ghost function HostFrame(m: Frames, t: Tables, fixed: nat, i: nat): nat
    requires Backed(m, t, fixed, i)
  {
    Walk(m, t[Root], Translate(fixed + i * PAGE)).value
  }

  /** The frame that is sent for a page is the one behind it, except inside a 2 MiB page: there it is right for the
      first page only. */
  lemma FileFrameIsHostFrame(m: Frames, t: Tables, fixed: nat, i: nat)
    requires Tree(m, t) && Backed(m, t, fixed, i)
    ensures Answered(m, t, fixed, i)
    ensures var at := Translate(fixed + i * PAGE);
            FileFrame(m, t, fixed, i) == HostFrame(m, t, fixed, i) <==> !HugeAt(m, t, at) || at.page == 0
  {
    hide Tree, Walk, Translate, HugeAt, Reported;
    ReportedFrame(m, t, Translate(fixed + i * PAGE));
  }

  // ----- which pages are sent over all calls

  function Later(x: nat, y: nat): nat { if x < y then y else x }

  /** One call, as far as one table goes: it has `pages` pages, and the loop over its new ones runs up to `until`. */
  datatype Call = Call(pages: nat, until: nat)

  /** The mark that the last call left. */
  function MarkAfter(calls: seq<Call>): nat { if calls == [] then 0 else calls[|calls| - 1].pages }

  /** Page `i` was sent by one of the calls. */
  predicate SentAfter(calls: seq<Call>, i: nat) {
    calls != [] &&
    var before, c := calls[..|calls| - 1], calls[|calls| - 1];
    var mark := MarkAfter(before);
    SentAfter(before, i) || (c.pages != mark && mark <= i < c.until)
  }

  /** The table never shrinks: otherwise the call panics. */
  ghost predicate Growing(calls: seq<Call>) {
    forall i :: 0 <= i < |calls| ==> MarkAfter(calls[..i]) <= calls[i].pages
  }

  lemma OneMoreCall(calls: seq<Call>, c: Call)
    ensures MarkAfter(calls + [c]) == c.pages
    ensures forall i: nat :: SentAfter(calls + [c], i)
              <==> SentAfter(calls, i) || (c.pages != MarkAfter(calls) && MarkAfter(calls) <= i < c.until)
    ensures Growing(calls + [c]) <==> Growing(calls) && MarkAfter(calls) <= c.pages
  {
    assert (calls + [c])[..|calls|] == calls;
    assert forall i :: 0 <= i <= |calls| ==> (calls + [c])[..i] == calls[..i];
    if Growing(calls + [c]) {
      forall i | 0 <= i < |calls| ensures MarkAfter(calls[..i]) <= calls[i].pages {
        assert (calls + [c])[i] == calls[i];
      }
      assert (calls + [c])[|calls|] == c;
    }
  }

  /** Exactly the pages of the table have been sent. */
  ghost predicate AllSent(calls: seq<Call>) { forall i: nat :: SentAfter(calls, i) <==> i < MarkAfter(calls) }

  /** A call keeps it so if and only if it has no new pages, or its loop runs up to the number of pages. */
  lemma StaysRightExactly(calls: seq<Call>, c: Call)
    requires AllSent(calls) && MarkAfter(calls) <= c.pages
    ensures AllSent(calls + [c]) <==> c.pages == MarkAfter(calls) || c.until == c.pages
  {
    hide SentAfter, MarkAfter;
    OneMoreCall(calls, c);
    var mark := MarkAfter(calls);
    if c.pages != mark && c.until != c.pages {
      var i := if c.until < c.pages then Later(mark, c.until) else c.pages;
      assert SentAfter(calls + [c], i) <==> i >= c.pages;
    }
  }

  ghost predicate AllBelow(calls: seq<Call>, n: nat) { forall i: nat :: i < n ==> SentAfter(calls, i) }

  /** After a call all pages below `n` have been sent if and only if they had been before, or there are new pages and
      the loop runs up to `n` at least. */
  lemma CoveredExactly(calls: seq<Call>, c: Call, n: nat)
    requires AllSent(calls) && MarkAfter(calls) <= c.pages
    ensures AllBelow(calls + [c], n) <==> n <= MarkAfter(calls) || (c.pages > MarkAfter(calls) && n <= c.until)
  {
    hide SentAfter, MarkAfter;
    OneMoreCall(calls, c);
    if AllBelow(calls + [c], n) && n > MarkAfter(calls) {
      assert SentAfter(calls + [c], n - 1);
    }
  }

  /** A page that was passed over is never sent afterwards. */
  lemma {:induction false} NeverCaughtUp(calls: seq<Call>, more: seq<Call>, i: nat)
    requires Growing(calls + more) && i < MarkAfter(calls) && !SentAfter(calls, i)
    ensures i < MarkAfter(calls + more) && !SentAfter(calls + more, i)
  {
    if more == [] {
      assert calls + more == calls;
    } else {
      var k := |more| - 1;
      assert calls + more == calls + more[..k] + [more[k]];
      OneMoreCall(calls + more[..k], more[k]);
      NeverCaughtUp(calls, more[..k], i);
    }
  }

  ghost predicate Sent(bs: seq<VMemSync>, v: nat) {
    exists i :: 0 <= i < |ExpandAll(bs)| && ExpandAll(bs)[i].0 == v
  }

  lemma SentConcat(xs: seq<VMemSync>, ys: seq<VMemSync>)
    ensures forall v: nat :: Sent(xs + ys, v) <==> Sent(xs, v) || Sent(ys, v)
  {
    hide ExpandAll;
    ExpandConcat(xs, ys);
    var all := ExpandAll(xs) + ExpandAll(ys);
    forall v: nat | Sent(xs, v) || Sent(ys, v) ensures Sent(xs + ys, v) {
      if Sent(xs, v) {
        var i :| 0 <= i < |ExpandAll(xs)| && ExpandAll(xs)[i].0 == v;
        assert all[i].0 == v;
      } else {
        var i :| 0 <= i < |ExpandAll(ys)| && ExpandAll(ys)[i].0 == v;
        assert all[|ExpandAll(xs)| + i].0 == v;
      }
    }
  }

  lemma SentPages(bs: seq<VMemSync>, v: nat, frames: seq<nat>)
    requires ExpandAll(bs) == PagesFrom(v, frames)
    ensures forall w: nat :: Sent(bs, w) <==> v <= w < v + |frames|
  {
    hide ExpandAll;
    forall w: nat | v <= w < v + |frames| ensures Sent(bs, w) { assert ExpandAll(bs)[w - v].0 == w; }
  }

  lemma SentInOrder(v: nat, before: seq<VMemSync>, sent: seq<VMemSync>, frames: seq<nat>)
    requires ExpandAll(sent) == PagesFrom(v + |ExpandAll(before)|, frames)
    requires forall i :: 0 <= i < |ExpandAll(before)| ==> ExpandAll(before)[i].0 == v + i
    ensures var all := ExpandAll(before + sent);
            |all| == |ExpandAll(before)| + |frames| && forall i :: 0 <= i < |all| ==> all[i].0 == v + i
  {
    hide ExpandAll;
    ExpandConcat(before, sent);
  }

  /** One of the tables. */
  class TableSync {
    const pager: Pager
    /** Where the table lies. */
    const fixed: nat
    /** The pages below this number count as sent. */
    var last: nat
    /** Every request sent so far, and the calls that sent them. */
    ghost var history: seq<VMemSync>
    ghost var calls: seq<Call>

    ghost predicate Valid()
      reads this
    {
      && fixed % PAGE == 0 && last == MarkAfter(calls) && Growing(calls)
      && forall v: nat :: Sent(history, v) <==> v >= fixed / PAGE && SentAfter(calls, v - fixed / PAGE)
    }

    /** Each page below the mark has been sent exactly once, in order. */
    ghost predicate InOrder()
      reads this
    {
      && |ExpandAll(history)| == last
      && forall i :: 0 <= i < last ==> ExpandAll(history)[i].0 == fixed / PAGE + i
    }

    /** What a call added to the history: the pages from `first` on up to `until`, with the frames they have. */
    ghost predicate Sends(was: seq<VMemSync>, first: nat, pages: nat, until: nat)
      reads this, pager, pager.memory
    {
      var m, t := pager.memory.frames, pager.tables;
      && was <= history && (pages != first ==> AllAnswered(m, t, fixed, first, Later(first, until)))
      && ExpandAll(history[|was|..])
         == if pages == first then []
            else PagesFrom(fixed / PAGE + first, FileFrames(m, t, fixed, first, Later(first, until)))
    }

    constructor (pager: Pager, fixed: nat)
      requires fixed % PAGE == 0
      ensures Valid() && InOrder() && this.pager == pager && this.fixed == fixed
      ensures last == 0 && history == [] && calls == []
    {
      this.pager := pager;
      this.fixed := fixed;
      this.last := 0;
      this.history := [];
      this.calls := [];
    }

    /** Sends the pages from the mark on up to `until`, if there are new ones at all, neighbouring frames in one
        request. Panics when `get_physical` has no answer for one of them, or for the first one. */
    method SendNew(pages: nat, until: nat) returns (sent: seq<VMemSync>, panicked: bool)
      requires Valid() && pager.Valid() && last <= pages
      modifies this
      ensures var m, t, first := pager.memory.frames, pager.tables, old(last);
              && panicked == (pages != first && !(Answered(m, t, fixed, first)
                                                  && AllAnswered(m, t, fixed, first, Later(first, until))))
              && (!panicked ==> Sends(old(history), first, pages, until))
      ensures !panicked ==> && Valid() && last == pages && history == old(history) + sent
                            && calls == old(calls) + [Call(pages, until)]
      ensures !panicked && old(InOrder()) && until == pages ==> InOrder()
    {
      hide Expand, Answered, FileFrame, PagesFrom, Walk, Tree, Translate, ExpandAll, FileFrames, SentAfter, MarkAfter,
           Growing, Sent;
      sent, panicked := [], false;
      ghost var first := last;
      if pages != last {
        sent, panicked := CollectRuns(pager, fixed, last, until);
        if panicked {
          return;
        }
        ghost var frames := FileFrames(pager.memory.frames, pager.tables, fixed, first, Later(first, until));
        SentPages(sent, fixed / PAGE + first, frames);
        if InOrder() { SentInOrder(fixed / PAGE, history, sent, frames); }
        last := pages;
      } else {
        NoneSent();
        assert history + sent == history;
      }
      assert (history + sent)[|history|..] == sent;
      SentConcat(history, sent);
      OneMoreCall(calls, Call(pages, until));
      history := history + sent;
      calls := calls + [Call(pages, until)];
    }
  }

  lemma NoneSent()
    ensures ExpandAll([]) == [] && forall v: nat :: !Sent([], v)
  {
  }

  /** The table has shrunk, or `get_physical` has no answer for a page that is to be sent, or for the first one. */
  ghost predicate Stuck(x: TableSync, pages: nat, until: nat)
    reads x, x.pager, x.pager.memory
  {
    var m, t, first := x.pager.memory.frames, x.pager.tables, x.last;
    || pages < first
    || (pages != first
        && !(Answered(m, t, x.fixed, first) && AllAnswered(m, t, x.fixed, first, Later(first, until))))
  }

  // ----- the four tables

  /** The virtual page that byte `k` of a table lies in. */
  function PageOfByte(fixed: nat, k: nat): nat { (fixed + k) / 0x1000 }

  /** A page of the table has been sent exactly when it holds a byte of it. */
  ghost predicate SentExactly(bs: seq<VMemSync>, fixed: nat, bytes: nat) {
    && (forall k :: 0 <= k < bytes ==> Sent(bs, PageOfByte(fixed, k)))
    && forall v: nat :: Sent(bs, v) ==> exists k :: 0 <= k < bytes && PageOfByte(fixed, k) == v
  }

  lemma TableIsSent(t: TableSync, bytes: nat)
    requires t.Valid() && AllSent(t.calls) && t.last == PagesOf(bytes)
    ensures SentExactly(t.history, t.fixed, bytes)
  {
    hide Sent, PagesOf, SentAfter, MarkAfter;
    forall k | 0 <= k < bytes ensures Sent(t.history, PageOfByte(t.fixed, k)) {
      PagesHoldBytes(bytes, k, 0);
      assert PageOfByte(t.fixed, k) == t.fixed / PAGE + k / 0x1000;
    }
    forall v: nat | Sent(t.history, v) ensures exists k :: 0 <= k < bytes && PageOfByte(t.fixed, k) == v {
      var i: nat := v - t.fixed / PAGE;
      PagesHoldBytes(bytes, 0, i);
      assert PageOfByte(t.fixed, i * 0x1000) == v;
    }
  }

  class FileSystemSync {
    const files: TableSync
    const directories: TableSync
    const hashmaps: TableSync
    const strings: TableSync

    ghost function Repr(): set<object> { {files, directories, hashmaps, strings} }

    /** All pages of the files, and no others, have been sent; for the other tables each loop ran up to the number of
        pages of the files. */
    ghost predicate Valid()
      reads Repr()
    {
      && |Repr()| == 4 && files.Valid() && directories.Valid() && hashmaps.Valid() && strings.Valid()
      && files.pager == directories.pager == hashmaps.pager == strings.pager
      && AllSent(files.calls) && files.InOrder()
    }

    constructor (pager: Pager)
      ensures Valid() && fresh(Repr()) && files.pager == pager
      ensures files.calls == directories.calls == hashmaps.calls == strings.calls == []
      ensures files.fixed == 0xFFFF_8001_8000_0000 && directories.fixed == 0xFFFF_8001_0000_0000
      ensures hashmaps.fixed == 0xFFFF_8002_0000_0000 && strings.fixed == 0xFFFF_8002_8000_0000
    {
      files := new TableSync(pager, GFS_FILES_FIXED_VADDR);
      directories := new TableSync(pager, GFS_DIRECTORY_FIXED_VADDR);
      hashmaps := new TableSync(pager, GFS_HASHMAP_FIXED_VADDR);
      strings := new TableSync(pager, GFS_STRINGS_FIXED_VADDR);
    }

    /** One table after the other, once it is clear that none has shrunk. */
    method SendAll(filesPages: nat, directoryPages: nat, hashmapPages: nat, stringPages: nat) returns (panicked: bool)
      requires Valid() && files.pager.Valid()
      modifies Repr()
      ensures panicked == old(Stuck(files, filesPages, filesPages) || Stuck(directories, directoryPages, filesPages)
                              || Stuck(hashmaps, hashmapPages, filesPages) || Stuck(strings, stringPages, filesPages))
      ensures !panicked ==>
                && Valid() && files.last == filesPages
                && files.calls == old(files.calls) + [Call(filesPages, filesPages)]
                && directories.calls == old(directories.calls) + [Call(directoryPages, filesPages)]
                && hashmaps.calls == old(hashmaps.calls) + [Call(hashmapPages, filesPages)]
                && strings.calls == old(strings.calls) + [Call(stringPages, filesPages)]
      ensures !panicked ==>
                && files.Sends(old(files.history), old(files.last), filesPages, filesPages)
                && directories.Sends(old(directories.history), old(directories.last), directoryPages, filesPages)
                && hashmaps.Sends(old(hashmaps.history), old(hashmaps.last), hashmapPages, filesPages)
                && strings.Sends(old(strings.history), old(strings.last), stringPages, filesPages)
    {
      hide Answered, AllAnswered, SentAfter, MarkAfter, Growing, Sent, AllSent, Later, ExpandAll, PagesFrom, FileFrames,
           Pager.Valid, TableSync.InOrder;
      if filesPages < files.last || directoryPages < directories.last || hashmapPages < hashmaps.last
         || stringPages < strings.last {
        return true;
      }
      StaysRightExactly(files.calls, Call(filesPages, filesPages));
      var sent;
      sent, panicked := files.SendNew(filesPages, filesPages);
      if panicked { return; }
      sent, panicked := directories.SendNew(directoryPages, filesPages);
      if panicked { return; }
      sent, panicked := hashmaps.SendNew(hashmapPages, filesPages);
      if panicked { return; }
      sent, panicked := strings.SendNew(stringPages, filesPages);
    }

    /** Tells the other cores about the new pages of all tables. A remainder of the hash maps is counted as a page of
        the directories, and all loops run up to the number of pages of the files. */
    method Sync(filesBytes: nat, directoriesBytes: nat, hashmapsBytes: nat, stringBytes: nat) returns (panicked: bool)
      requires Valid() && files.pager.Valid()
      modifies Repr()
      ensures var pages, rest := PagesOf(filesBytes), if hashmapsBytes % 0x1000 != 0 then 1 else 0;
              && panicked == old(Stuck(files, pages, pages)
                                 || Stuck(directories, PagesOf(directoriesBytes) + rest, pages)
                                 || Stuck(hashmaps, hashmapsBytes / 0x1000, pages)
                                 || Stuck(strings, PagesOf(stringBytes), pages))
              && (!panicked ==>
                    && Valid() && files.calls == old(files.calls) + [Call(pages, pages)]
                    && directories.calls == old(directories.calls) + [Call(PagesOf(directoriesBytes) + rest, pages)]
                    && hashmaps.calls == old(hashmaps.calls) + [Call(hashmapsBytes / 0x1000, pages)]
                    && strings.calls == old(strings.calls) + [Call(PagesOf(stringBytes), pages)]
                    && files.Sends(old(files.history), old(files.last), pages, pages)
                    && directories.Sends(old(directories.history), old(directories.last),
                                         PagesOf(directoriesBytes) + rest, pages)
                    && hashmaps.Sends(old(hashmaps.history), old(hashmaps.last), hashmapsBytes / 0x1000, pages)
                    && strings.Sends(old(strings.history), old(strings.last), PagesOf(stringBytes), pages))
      ensures !panicked ==> SentExactly(files.history, files.fixed, filesBytes)
    {
      hide Stuck, Valid, SentExactly, TableSync.Valid, TableSync.Sends, Pager.Valid, AllSent;
      var filesPages, directoryPages := filesBytes / 0x1000, directoriesBytes / 0x1000;
      var hashmapPages, stringPages := hashmapsBytes / 0x1000, stringBytes / 0x1000;
      if filesBytes % 0x1000 != 0 {
        filesPages := filesPages + 1;
      }
      if directoriesBytes % 0x1000 != 0 {
        directoryPages := directoryPages + 1;
      }
      if hashmapsBytes % 0x1000 != 0 {
        directoryPages := directoryPages + 1;
      }
      if stringBytes % 0x1000 != 0 {
        stringPages := stringPages + 1;
      }
      panicked := SendAll(filesPages, directoryPages, hashmapPages, stringPages);
      if !panicked { FilesAreSent(filesBytes); }
    }

    lemma FilesAreSent(filesBytes: nat)
      requires Valid() && files.last == PagesOf(filesBytes)
      ensures SentExactly(files.history, files.fixed, filesBytes)
    {
      TableIsSent(files, filesBytes);
    }
  }

  /** The loop of `sync`: a request grows as long as the next frame follows the previous one. The first page is looked
      up even when the loop does nothing. */
  method CollectRuns(pager: Pager, fixed: nat, base: nat, until: nat) returns (sent: seq<VMemSync>, panicked: bool)
    requires pager.Valid() && fixed % PAGE == 0
    ensures var m, t := pager.memory.frames, pager.tables;
            panicked == !(Answered(m, t, fixed, base) && AllAnswered(m, t, fixed, base, Later(base, until)))
    ensures !panicked ==>
        ExpandAll(sent) == PagesFrom(fixed / PAGE + base,
                                     FileFrames(pager.memory.frames, pager.tables, fixed, base, Later(base, until)))
  {
    hide Expand, Answered, FileFrame, PagesFrom, Walk, Tree, Translate, Slot, ExpandAll, AllAnswered, FileFrames;
    ghost var m, t := pager.memory.frames, pager.tables;
    TreeParts(m, t);
    NoneMissing(m, t, fixed, base);
    sent, panicked := [], false;
    var vaddr: nat := fixed + base * 0x1000;
    var vaddrAtIpi: nat := vaddr;
    ReadsFrame(m, t, fixed, base);
    var first := pager.GetPhysical(vaddr);
    if first.Err? {
      return sent, true;
    }
    var block := MemoryBlock(first.value, 0);
    StartEmpty(vaddrAtIpi, block, fixed / PAGE + base);
    for i := base to Later(base, until)
      invariant AllAnswered(m, t, fixed, base, i) && !panicked
      invariant vaddr == fixed + i * 0x1000 && Aligned(block, vaddrAtIpi, vaddr) && (i > base <==> block.length > 0)
      invariant ExpandAll(sent) + Expand(VMemSync(block, vaddrAtIpi))
                == PagesFrom(fixed / PAGE + base, FileFrames(m, t, fixed, base, i))
    {
      ReadsFrame(m, t, fixed, i);
      var physical := pager.GetPhysical(vaddr);
      if physical.Err? {
        OneMissing(m, t, fixed, base, i, Later(base, until));
        return sent, true;
      }
      OneMoreAnswered(m, t, fixed, base, i);
      sent, block, vaddrAtIpi := NextPage(sent, block, vaddrAtIpi, vaddr, physical.value);
      assert vaddr / PAGE == fixed / PAGE + i;
      vaddr := vaddr + 0x1000;
    }
    if block.length != 0 {
      sent := sent + [VMemSync(block, vaddrAtIpi)];
      ExpandMore(sent[..|sent| - 1], VMemSync(block, vaddrAtIpi));
    } else {
      EmptyRun(sent, VMemSync(block, vaddrAtIpi));
    }
  }

  lemma EmptyRun(sent: seq<VMemSync>, b: VMemSync)
    requires b.paddr.length == 0
    ensures ExpandAll(sent) + Expand(b) == ExpandAll(sent)
  {
  }

  ghost predicate Aligned(block: MemoryBlock, vaddrAtIpi: nat, vaddr: nat) {
    block.base % PAGE == 0 && block.length % PAGE == 0 && vaddrAtIpi % PAGE == 0 && vaddr == vaddrAtIpi + block.length
  }

  /** One page more: it either extends the request being built, or starts the next one. */
  method NextPage(before: seq<VMemSync>, run: MemoryBlock, runStart: nat, vaddr: nat, physical: nat)
    returns (sent: seq<VMemSync>, block: MemoryBlock, vaddrAtIpi: nat)
    requires Aligned(run, runStart, vaddr) && physical % PAGE == 0
    ensures Aligned(block, vaddrAtIpi, vaddr + PAGE) && block.length > 0
    ensures ExpandAll(sent) + Expand(VMemSync(block, vaddrAtIpi))
            == ExpandAll(before) + Expand(VMemSync(run, runStart)) + [(vaddr / PAGE, physical / PAGE)]
  {
    hide Expand, ExpandAll;
    sent, block, vaddrAtIpi := before, run, runStart;
    if physical != block.base + block.length {
      sent := sent + [VMemSync(block, vaddrAtIpi)];
      ExpandMore(before, VMemSync(run, runStart));
      vaddrAtIpi := vaddr;
      block := MemoryBlock(physical, 0x1000);
      ExpandOne(vaddr / PAGE, physical / PAGE);
      assert vaddr == vaddr / PAGE * PAGE && physical == physical / PAGE * PAGE;
    } else {
      block := block.(length := block.length + 0x1000);
      ExpandLonger(VMemSync(run, runStart), vaddr / PAGE, physical / PAGE);
    }
  }

  lemma ReadsFrame(m: Frames, t: Tables, fixed: nat, i: nat)
    requires Root in t && fixed % PAGE == 0
    ensures (fixed + i * 0x1000) % PAGE == 0
    ensures var at := Translate(fixed + i * 0x1000);
            && (Answered(m, t, fixed, i) <==> TablePos(at, 2) in t)
            && (Answered(m, t, fixed, i) ==> Reported(m, t, at) == FileFrame(m, t, fixed, i))
  {
    hide Translate, Reported, HugeAt;
  }

  lemma StartEmpty(vaddr: nat, block: MemoryBlock, v: nat)
    requires block.length == 0
    ensures ExpandAll([]) + Expand(VMemSync(block, vaddr)) == PagesFrom(v, [])
  {
  }
}
