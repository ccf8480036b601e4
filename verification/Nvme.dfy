/** Splitting a transfer into commands and describing its memory to the controller (drivers/disk/nvme.rs).
    What the controller makes of the two PRP entries of a command follows section 4.3 of the NVM Express Base
    Specification 1.4. */
module Nvme {
  import opened Memory
  import opened Multiples
  import opened Bitmap
  import opened Allocators
  import opened AllocatorRuns

  const LIST_ENTRIES: nat := 512

  /** The entries of a list page that another one follows; its last entry points there. */
  const CHAIN_ENTRIES: nat := 511

  /** Pages of memory as 512 words each, by address. */
  type Pages = map<nat, seq<nat>>

  /** Pages nothing was written to hold zeros. */
  function Page(pages: Pages, at: nat): (words: seq<nat>)
    ensures |words| == LIST_ENTRIES
  {
    if at in pages && |pages[at]| == LIST_ENTRIES then pages[at] else seq(LIST_ENTRIES, _ => 0)
  }

  // ----- what the controller does

  datatype DiskIoResult = Success | InvalidScheduler | BufferReadonly | InvalidLba

  /** A read or write of `blocks` logical blocks, with the pages of memory the controller may find lists in. */
  datatype Command = Command(write: bool, nsid: nat, lba: nat, blocks: nat, prp1: nat, prp2: nat, pages: Pages)

  /** Entry `i` of a list of `count` entries. A list that is longer than its page goes on in the page that the last
      entry of the page points to. */
  ghost function ListEntry(pages: Pages, list: nat, count: nat, i: nat): Option<nat>
    decreases count
  {
    if i >= count then None
    else if i < CHAIN_ENTRIES || count <= LIST_ENTRIES then Some(Page(pages, list)[i])
    else
      var next := Page(pages, list)[CHAIN_ENTRIES];
      if next % PAGE == 0 then ListEntry(pages, next, count - CHAIN_ENTRIES, i - CHAIN_ENTRIES) else None
  }

  /** The pages that `bytes` bytes take from the start of a page on. */
  function PagesFor(bytes: nat): nat { bytes / PAGE + if bytes % PAGE != 0 then 1 else 0 }

  /** Where in memory byte `k` of a transfer of `bytes` bytes lies. */
  ghost function PrpByte(pages: Pages, prp1: nat, prp2: nat, bytes: nat, k: nat): Option<nat> {
    var took := PAGE - prp1 % PAGE;
    if k >= bytes then None
    else if k < took then Some(prp1 + k)
    else
      var rest := k - took;
      var page := if bytes - took <= PAGE then Some(prp2)
                  else ListEntry(pages, prp2, PagesFor(bytes - took), rest / PAGE);
      if page.Some? && page.value % PAGE == 0 then Some(page.value + rest % PAGE) else None
  }

  /** The memory addresses that byte `d` of the disk is carried to or from, command by command. */
  ghost function Carried(commands: seq<Command>, sectorSize: nat, d: nat): seq<Option<nat>> {
    if commands == [] then []
    else
      var c := commands[0];
      var rest := Carried(commands[1..], sectorSize, d);
      if c.lba * sectorSize <= d < (c.lba + c.blocks) * sectorSize
      then [PrpByte(c.pages, c.prp1, c.prp2, c.blocks * sectorSize, d - c.lba * sectorSize)] + rest
      else rest
  }

  // ----- the split

  /** One round of the loop: `bytes` bytes at `address`, for `blocks` blocks from `lba` on. */
  datatype Part = Part(lba: nat, blocks: nat, address: nat, bytes: nat)

  /** The number of blocks of a command, in 16 bits but for the last, incomplete one. */
  function Blocks(bytes: nat, sectorSize: nat): nat
    requires sectorSize > 0
  {
    bytes / sectorSize % 0x1_0000 + if bytes % sectorSize != 0 then 1 else 0
  }

  function Fetched(bytes: nat, bulk: nat): nat { if bytes > bulk then bulk else bytes }

  function Plan(bytes: nat, address: nat, lba: nat, sectorSize: nat, bulk: nat): seq<Part>
    requires sectorSize > 0 && bulk > 0
    decreases bytes
  {
    if bytes == 0 then []
    else
      var f := Fetched(bytes, bulk);
      [Part(lba, Blocks(f, sectorSize), address, f)]
        + Plan(bytes - f, address + f, lba + Blocks(f, sectorSize), sectorSize, bulk)
  }

  /** A command for a part of a transfer: for its blocks and its memory. */
  ghost predicate Issued(c: Command, p: Part) { c.lba == p.lba && c.blocks == p.blocks && c.prp1 == p.address }

  /** The entries of the command describe exactly the bytes of its part, in order. */
  ghost predicate Carries(c: Command, p: Part) { Issued(c, p) && Describes(c.pages, c.prp1, c.prp2, p.bytes) }

  /** One command for each part, right in each part whose list is complete. */
  ghost predicate AllIssued(commands: seq<Command>, parts: seq<Part>) {
    && |commands| == |parts|
    && forall i :: 0 <= i < |parts| ==>
      && Issued(commands[i], parts[i])
      && (Complete(parts[i].bytes, parts[i].address) ==> Carries(commands[i], parts[i]))
  }

  ghost predicate AllComplete(parts: seq<Part>) {
    forall i :: 0 <= i < |parts| ==> Complete(parts[i].bytes, parts[i].address)
  }

  // ----- lists of pages

  /** The first page that is described by the second entry. */
  function NextPage(address: nat): nat { address - address % PAGE + PAGE }

  /** The entries of the list that is needed, if one is. */
  function Listed(bytes: nat, address: nat): nat {
    var took := PAGE - address % PAGE;
    if bytes <= took + PAGE then 0 else PagesFor(bytes - took)
  }

  /** The pages allocated for the list: one, or one for each full table of a long list. */
  function Tables(bytes: nat, address: nat): nat {
    var p := Listed(bytes, address);
    if p == 0 then 0 else if p <= LIST_ENTRIES then 1 else p / CHAIN_ENTRIES
  }

  /** The list fits one page, or consists of full tables. */
  predicate Complete(bytes: nat, address: nat) {
    var p := Listed(bytes, address);
    p <= LIST_ENTRIES || p % CHAIN_ENTRIES == 0
  }

  /** The controller finds each byte of the transfer where it belongs. */
  ghost predicate Describes(pages: Pages, prp1: nat, prp2: nat, bytes: nat) {
    forall k :: 0 <= k < bytes ==> PrpByte(pages, prp1, prp2, bytes, k) == Some(prp1 + k)
  }

  /** A long list that does not consist of full tables ends in the page behind the tables, where the code puts the
      rest in the wrong place. What is read there instead is right by chance only: a single last entry is taken for
      the address of that page, further ones are what the page held before. */
  ghost predicate RightByChance(before: Pages, list: nat, bytes: nat, address: nat) {
    var p := Listed(bytes, address);
    var behind, done, n := list + p / CHAIN_ENTRIES * PAGE, p - p % CHAIN_ENTRIES, p % CHAIN_ENTRIES;
    if n == 1 then behind == NextPage(address) + done * PAGE
    else HoldsRest(before, behind, NextPage(address) + done * PAGE, n)
  }

  /** The first `n` words of a page are the addresses of pages from `first` on. */
  ghost predicate HoldsRest(pages: Pages, at: nat, first: nat, n: nat)
    requires n <= LIST_ENTRIES
  {
    forall j :: 0 <= j < n ==> Page(pages, at)[j] == first + j * PAGE
  }

  lemma DirectDescribes(pages: Pages, bytes: nat, address: nat, prp2: nat)
    requires bytes > PAGE - address % PAGE ==>
        bytes <= PAGE - address % PAGE + PAGE && prp2 == address - address % PAGE + PAGE
    ensures Describes(pages, address, prp2, bytes)
  {
  }

  lemma PageAligned(address: nat, i: nat)
    ensures (NextPage(address) + i * PAGE) % PAGE == 0 && NextPage(address) == address + (PAGE - address % PAGE)
  {
    assert NextPage(address) + i * PAGE == (address / PAGE + 1 + i) * PAGE;
  }

  /** Every entry of the list is the address of its page. */
  ghost predicate AllListed(pages: Pages, list: nat, p: nat, first: nat) {
    forall i :: 0 <= i < p ==> ListEntry(pages, list, p, i) == Some(first + i * PAGE)
  }

  lemma ListDescribes(pages: Pages, bytes: nat, address: nat, prp2: nat)
    requires Listed(bytes, address) > 0
    requires AllListed(pages, prp2, Listed(bytes, address), NextPage(address))
    ensures Describes(pages, address, prp2, bytes)
  {
    hide ListEntry;
    var took := PAGE - address % PAGE;
    forall k | took <= k < bytes ensures PrpByte(pages, address, prp2, bytes, k) == Some(address + k) {
      assert ListEntry(pages, prp2, Listed(bytes, address), (k - took) / PAGE).Some?;
      PageAligned(address, (k - took) / PAGE);
    }
  }

  lemma DescribedIsListed(pages: Pages, bytes: nat, address: nat, prp2: nat)
    requires Listed(bytes, address) > 0 && Describes(pages, address, prp2, bytes)
    ensures AllListed(pages, prp2, Listed(bytes, address), NextPage(address))
  {
    hide ListEntry;
    var p, took := Listed(bytes, address), PAGE - address % PAGE;
    forall i | 0 <= i < p ensures ListEntry(pages, prp2, p, i) == Some(NextPage(address) + i * PAGE) {
      assert PrpByte(pages, address, prp2, bytes, took + i * PAGE) == Some(address + (took + i * PAGE));
      PageAligned(address, i);
    }
  }

  /** A list of one page. */
  lemma ShortListDescribes(pages: Pages, bytes: nat, address: nat, list: nat)
    requires 0 < Listed(bytes, address) <= LIST_ENTRIES
    requires forall j :: 0 <= j < Listed(bytes, address) ==> Page(pages, list)[j] == NextPage(address) + j * PAGE
    ensures Describes(pages, address, list, bytes)
  {
    ListDescribes(pages, bytes, address, list);
  }

  /** Table `t` of a long list: addresses of pages, and the address of the page that follows it. */
  function ChainTable(list: nat, first: nat, t: nat): seq<nat> {
    seq(LIST_ENTRIES, j requires 0 <= j < LIST_ENTRIES =>
      if j < CHAIN_ENTRIES then first + (CHAIN_ENTRIES * t + j) * PAGE else list + (t + 1) * PAGE)
  }

  /** What the controller reads from `depth` full tables and the page behind them. */
  lemma {:induction false} ChainEntry(pages: Pages, list: nat, first: nat, depth: nat, n: nat, t: nat, i: nat)
    requires n < CHAIN_ENTRIES && t < depth && list % PAGE == 0 && i < CHAIN_ENTRIES * (depth - t) + n
    requires forall u :: 0 <= u < depth ==> Page(pages, list + u * PAGE) == ChainTable(list, first, u)
    ensures ListEntry(pages, list + t * PAGE, CHAIN_ENTRIES * (depth - t) + n, i) ==
            if i < CHAIN_ENTRIES * (depth - t) then Some(first + (CHAIN_ENTRIES * t + i) * PAGE)
            else if n == 1 then Some(list + depth * PAGE)
            else Some(Page(pages, list + depth * PAGE)[i - CHAIN_ENTRIES * (depth - t)])
    decreases depth - t
  {
    assert Page(pages, list + t * PAGE) == ChainTable(list, first, t);
    if i >= CHAIN_ENTRIES && t + 1 < depth {
      ChainEntry(pages, list, first, depth, n, t + 1, i - CHAIN_ENTRIES);
    }
  }

  /** A long list describes the transfer exactly when it consists of full tables, or by chance. */
  lemma LongListDescribes(before: Pages, pages: Pages, bytes: nat, address: nat, list: nat)
    requires Listed(bytes, address) > LIST_ENTRIES && list % PAGE == 0
    requires Chained(before, pages, list, NextPage(address), Listed(bytes, address))
    ensures Describes(pages, address, list, bytes) <==>
        Complete(bytes, address) || RightByChance(before, list, bytes, address)
  {
    hide ListEntry, Describes;
    var p, first := Listed(bytes, address), NextPage(address);
    var depth, n := p / CHAIN_ENTRIES, p % CHAIN_ENTRIES;
    var done, behind := CHAIN_ENTRIES * depth, list + depth * PAGE;
    forall i | 0 <= i < p
      ensures ListEntry(pages, list, p, i) ==
              if i < done then Some(first + i * PAGE)
              else if n == 1 then Some(behind) else Some(Page(before, behind)[i - done])
    {
      ChainEntry(pages, list, first, depth, n, 0, i);
    }
    if Describes(pages, address, list, bytes) {
      DescribedIsListed(pages, bytes, address, list);
      assert n == 1 ==> ListEntry(pages, list, p, done) == Some(behind);
      forall j | 0 <= j < n && n != 1 ensures Page(before, behind)[j] == first + done * PAGE + j * PAGE {
        assert ListEntry(pages, list, p, done + j) == Some(first + (done + j) * PAGE);
      }
    } else if AllListed(pages, list, p, first) {
      ListDescribes(pages, bytes, address, list);
      assert false;
    }
  }

  lemma ZerosAreNoRest(pages: Pages, at: nat, first: nat, n: nat)
    requires 0 < n <= LIST_ENTRIES && first > 0 && Page(pages, at) == seq(LIST_ENTRIES, _ => 0)
    ensures !HoldsRest(pages, at, first, n)
  {
    assert Page(pages, at)[0] != first + 0 * PAGE;
  }

  lemma LastPage(bytes: nat, address: nat)
    requires Listed(bytes, address) > 0
    ensures address <= NextPage(address) + (Listed(bytes, address) - 1) * PAGE < address + bytes
  {
  }

  /** There is no such chance where the page behind the tables holds zeros and is not part of the buffer. */
  lemma NotByChance(before: Pages, list: nat, bytes: nat, address: nat)
    requires !Complete(bytes, address)
    requires var behind := list + Listed(bytes, address) / CHAIN_ENTRIES * PAGE;
             && Page(before, behind) == seq(LIST_ENTRIES, _ => 0)
             && !(address <= behind < address + bytes)
    ensures !RightByChance(before, list, bytes, address)
  {
    var p := Listed(bytes, address);
    var behind, done, n := list + p / CHAIN_ENTRIES * PAGE, p - p % CHAIN_ENTRIES, p % CHAIN_ENTRIES;
    if n == 1 {
      LastPage(bytes, address);
      assert done == p - 1;
    } else {
      ZerosAreNoRest(before, behind, NextPage(address) + done * PAGE, n);
    }
  }

  /** Full tables for the first entries of a list of `p`, and one entry behind the tables. */
  ghost predicate Chained(before: Pages, pages: Pages, list: nat, first: nat, p: nat) {
    var depth, n := p / CHAIN_ENTRIES, p % CHAIN_ENTRIES;
    && (forall t :: 0 <= t < depth ==> Page(pages, list + t * PAGE) == ChainTable(list, first, t))
    && Page(pages, list + depth * PAGE)
         == if n == 0 then Page(before, list + depth * PAGE)
            else Page(before, list + depth * PAGE)[n := first + (p - 1) * PAGE]
  }

  // ----- the controller

  class NvmeController {
    const maximumDataTransferSize: nat
    const numQueuesImplemented: nat
    const allocator: Allocator
    /** The contents of the pages that PRP lists are built in, by address. */
    var pages: Pages
    ghost var log: seq<Command>

    ghost predicate Ready()
      reads this, allocator, allocator.bitmap
    {
      allocator.Supplies(0) && numQueuesImplemented > 0
    }

    constructor (maximumDataTransferSize: nat, numQueuesImplemented: nat, allocator: Allocator)
      requires allocator.Supplies(0) && numQueuesImplemented > 0
      ensures Ready() && log == [] && this.allocator == allocator
          && this.maximumDataTransferSize == maximumDataTransferSize
      ensures this.numQueuesImplemented == numQueuesImplemented
    {
      this.maximumDataTransferSize := maximumDataTransferSize;
      this.numQueuesImplemented := numQueuesImplemented;
      this.allocator := allocator;
      pages := map[];
      log := [];
    }

    function BulkSize(sectorSize: nat): nat {
      if maximumDataTransferSize == 0xFFFF then maximumDataTransferSize * sectorSize else maximumDataTransferSize
    }

    /** A list in the page at `at`: `count` addresses of pages, from `first` on. */
    method FillList(at: nat, first: nat, count: nat)
      requires count <= LIST_ENTRIES
      modifies this`pages
      ensures Page(pages, at) == Filled(Page(old(pages), at), first, count)
      ensures forall a :: a != at ==> Page(pages, a) == Page(old(pages), a)
    {
      var alignedAddress := first;
      for i := 0 to count
        invariant alignedAddress == first + i * 0x1000
        invariant Page(pages, at) == Filled(Page(old(pages), at), first, i)
        invariant forall a :: a != at ==> Page(pages, a) == Page(old(pages), a)
      {
        pages := pages[at := Page(pages, at)[i := alignedAddress]];
        alignedAddress := alignedAddress + 0x1000;
      }
    }

    /** A long list: full tables, one page after the other, and the rest behind them. */
    method ChainLists(list: nat, first: nat, depth: nat, n: nat)
      requires n < CHAIN_ENTRIES
      modifies this`pages
      ensures Chained(old(pages), pages, list, first, CHAIN_ENTRIES * depth + n)
    {
      hide Page;
      var base, alignedAddress := list, first;
      for t := 0 to depth
        invariant base == list + t * PAGE && alignedAddress == first + CHAIN_ENTRIES * t * PAGE
        invariant forall u :: 0 <= u < t ==> Page(pages, list + u * PAGE) == ChainTable(list, first, u)
        invariant forall a :: a >= base ==> Page(pages, a) == Page(old(pages), a)
      {
        FillList(base, alignedAddress, CHAIN_ENTRIES);
        Write(base, CHAIN_ENTRIES, base + 0x1000);
        assert Page(pages, list + t * PAGE) == ChainTable(list, first, t);
        base, alignedAddress := base + 0x1000, alignedAddress + CHAIN_ENTRIES * 0x1000;
      }
      for i := 0 to n
        invariant alignedAddress == first + (CHAIN_ENTRIES * depth + i) * PAGE
        invariant forall u :: 0 <= u < depth ==> Page(pages, list + u * PAGE) == ChainTable(list, first, u)
        invariant Page(pages, base)
                  == if i == 0 then Page(old(pages), base) else Page(old(pages), base)[n := alignedAddress - PAGE]
      {
        Write(base, n, alignedAddress);
        alignedAddress := alignedAddress + 0x1000;
      }
    }

    /** Stores one entry. */
    method Write(at: nat, i: nat, address: nat)
      requires i < LIST_ENTRIES
      modifies this`pages
      ensures Page(pages, at) == Page(old(pages), at)[i := address]
      ensures forall a :: a != at ==> Page(pages, a) == Page(old(pages), a)
    {
      pages := pages[at := Page(pages, at)[i := address]];
    }

    /** Pages for the tables of a list. */
    method AllocTables(n: U16) returns (r: Result<MemoryBlock>)
      requires Ready() && Confined(allocator.bitmap[..], n)
      modifies allocator`current, allocator.bitmap
      ensures r.Err? <==> n == 0 || forall s: nat :: !Fits(old(allocator.bitmap[..]), s, n)
      ensures r.Ok? ==> r.value.base % PAGE == 0 && allocator.Shaped()
      ensures r.Ok? ==> old(allocator.current) < allocator.entries ==> allocator.current < allocator.entries
      ensures r.Ok? ==> AllocSpec(old(allocator.bitmap[..]), allocator.addend, n, r, allocator.bitmap[..])
    {
      hide Placed, Strays, Used, FrameRange, Guarded, Fits, Confined, Contained, Marked, FreeRun;
      allocator.ConfinedStays(n);
      r := allocator.Alloc(n);
    }

    /** The two entries for `bytes` bytes at `address`, with the tables of a list if there is one. */
    method ConstructPrp(bytes: nat, address: nat)
      returns (prp1: nat, prp2: nat, table: Option<MemoryBlock>, panicked: bool)
      requires Ready() && Roomy(allocator.bitmap[..], bytes, address)
      modifies this`pages, allocator`current, allocator.bitmap
      ensures panicked == NoTables(old(allocator.bitmap[..]), bytes, address)
      ensures !panicked ==>
          prp1 == address
          && (Describes(pages, prp1, prp2, bytes) <==>
              Complete(bytes, address) || RightByChance(old(pages), prp2, bytes, address))
      ensures !panicked ==> allocator.Shaped() && (old(allocator.current) < allocator.entries ==>
                allocator.current < allocator.entries)
      ensures !panicked ==>
          match table
          case None => allocator.bitmap[..] == old(allocator.bitmap[..])
          case Some(b) => AllocSpec(old(allocator.bitmap[..]), allocator.addend, Tables(bytes, address) % 0x1_0000,
                                    Ok(b), allocator.bitmap[..])
    {
      hide AllocSpec, Placed, Strays, Used, FrameRange, Guarded,
           Describes, Chained, RightByChance, Fits, Confined, Page;
      var alignedAddress: nat, offset := address - address % 0x1000, address % 0x1000;
      prp1, prp2, table, panicked := address, 0, None, false;
      var tookSize := 0x1000 - offset;
      if bytes > tookSize {
        if 0x1000 >= bytes - tookSize {
          prp2 := alignedAddress + 0x1000;
          DirectDescribes(pages, bytes, address, prp2);
        } else {
          var p := (bytes - tookSize) / 0x1000;
          if (bytes - tookSize) % 0x1000 != 0 {
            p := p + 1;
          }
          if p > 512 {
            // the test for a full last table never holds
            assert p != 511 * (p - 511) / 511 + 512;
            var depth, n := p / 511, p - p / 511 * 511;
            var tables := AllocTables(depth % 0x1_0000);
            panicked := tables.Err?;
            if panicked { return; }
            prp2, table := tables.value.base, Some(tables.value);
            ChainLists(prp2, alignedAddress + 0x1000, depth, n);
            LongListDescribes(old(pages), pages, bytes, address, prp2);
          } else {
            var tables := AllocTables(1);
            panicked := tables.Err?;
            if panicked { return; }
            prp2, table := tables.value.base, Some(tables.value);
            pages := pages[prp2 := seq(LIST_ENTRIES, _ => 0)];
            FillList(prp2, alignedAddress + 0x1000, p);
            ShortListDescribes(pages, bytes, address, prp2);
          }
        }
      } else {
        DirectDescribes(pages, bytes, address, prp2);
      }
    }

    /** One round of the loop: builds the entries, has the command carried out, and gives the list back. */
    method Dispatch(write: bool, nsid: nat, lba: nat, sectorSize: nat, bytes: nat, address: nat)
      returns (blocks: nat, panicked: bool)
      requires Ready() && Roomy(allocator.bitmap[..], bytes, address) && sectorSize > 0
      modifies this, allocator`current, allocator.bitmap
      ensures panicked == Stops(old(allocator.bitmap[..]), bytes, address, sectorSize)
      ensures panicked ==> log == old(log)
      ensures !panicked ==>
          Ready() && allocator.bitmap[..] == old(allocator.bitmap[..]) && blocks == Blocks(bytes, sectorSize)
      ensures !panicked ==>
          && |log| == |old(log)| + 1 && old(log) <= log
          && var c := log[|old(log)|];
          && c.write == write && c.nsid == nsid && Issued(c, Part(lba, blocks, address, bytes))
          && (Describes(c.pages, c.prp1, c.prp2, bytes) <==>
              Complete(bytes, address) || RightByChance(old(pages), c.prp2, bytes, address))
    {
      hide AllocSpec, FreeSpec, Describes, RightByChance, Fits, Used, FrameRange, Guarded, NoTables, Roomy;
      ghost var w0 := allocator.bitmap[..];
      var prp1, prp2, mb;
      prp1, prp2, mb, panicked := ConstructPrp(bytes, address);
      blocks := bytes / sectorSize % 0x1_0000;
      if bytes % sectorSize != 0 {
        blocks := blocks + 1;
      }
      // neither the sum nor the number less one fits 16 bits
      panicked := panicked || blocks == 0 || blocks == 0x1_0000;
      if panicked { return; }
      log := log + [Command(write, nsid, lba, blocks, prp1, prp2, pages)];
      match mb {
        case None =>
        case Some(b) =>
          ghost var w1 := allocator.bitmap[..];
          ghost var n := Tables(bytes, address) % 0x1_0000;
          BlockInside(w0, allocator.addend, n, b, w1);
          var freed := allocator.Free(b);
          AllocThenFree(allocator.addend, w0, n, b, w1, freed, allocator.bitmap[..]);
      }
    }
  }

  /** Words of a list after `count` addresses were stored in it. */
  function Filled(words: seq<nat>, first: nat, count: nat): seq<nat> {
    seq(|words|, j requires 0 <= j < |words| => if j < count then first + j * PAGE else words[j])
  }

  /** There is no place for the tables of a list; their number is cut to 16 bits. */
  ghost predicate NoTables(words: seq<bv32>, bytes: nat, address: nat) {
    var n := Tables(bytes, address) % 0x1_0000;
    Tables(bytes, address) > 0 && (n == 0 || forall s: nat :: !Fits(words, s, n))
  }

  /** The allocator serves the tables of a list from its range, if at all. */
  ghost predicate Roomy(words: seq<bv32>, bytes: nat, address: nat) {
    Tables(bytes, address) > 0 ==> Confined(words, Tables(bytes, address) % 0x1_0000)
  }

  /** A round panics without tables, or when the number of blocks is cut to none or overflows. */
  ghost predicate Stops(words: seq<bv32>, bytes: nat, address: nat, sectorSize: nat)
    requires sectorSize > 0
  {
    NoTables(words, bytes, address) || Blocks(bytes, sectorSize) == 0 || Blocks(bytes, sectorSize) == 0x1_0000
  }

  /** With a frame to spare in the range, a list of one page is served, and from the range. */
  lemma OneTable(a: Allocator, bytes: nat, address: nat)
    requires a.Shaped() && a.FreeFrames() > 0 && Tables(bytes, address) <= 1
    ensures !NoTables(a.bitmap[..], bytes, address) && Roomy(a.bitmap[..], bytes, address)
  {
    hide Occupied, Tables;
    ghost var free := a.AllFrames() - a.InUse();
    assert free != {};
    ghost var f :| f in free;
    assert !FrameUsed(a.bitmap[..], a.First(), f);
    assert Fits(a.bitmap[..], f - a.First(), 1);
    assert WordFits(a.bitmap[..], (f - a.First()) / 32, 1);
  }

  lemma BlockInside(w0: seq<bv32>, addend: nat, n: nat, b: MemoryBlock, w1: seq<bv32>)
    requires |w0| > 0 && AllocSpec(w0, addend, n, Ok(b), w1)
    ensures b.End() <= addend + (|w0| - 1) * 32 * PAGE
  {
  }
  // ----- the disk

  datatype NvmeDisk = NvmeDisk(nsid: nat, numSectors: nat, sectorSize: nat)

  /** The least number of sectors that hold a buffer. */
  ghost function Sectors(size: nat, sectorSize: nat): nat
    requires sectorSize > 0
  {
    (size + sectorSize - 1) / sectorSize
  }

  /** `total` is `size` rounded up to whole sectors. */
  ghost predicate Rounded(total: nat, size: nat, sectorSize: nat)
    requires sectorSize > 0
  {
    total % sectorSize == 0 && size <= total < size + sectorSize
  }

  lemma SectorsAre(size: nat, sectorSize: nat)
    requires sectorSize > 0
    ensures Sectors(size, sectorSize) == size / sectorSize + if size % sectorSize != 0 then 1 else 0
    ensures Rounded(Sectors(size, sectorSize) * sectorSize, size, sectorSize)
  {
    var q, r := size / sectorSize, size % sectorSize;
    var n := if r != 0 then q + 1 else q;
    assert size == q * sectorSize + r;
    Scaled(q, 1, sectorSize);
    DivUnique(n * sectorSize, sectorSize, n);
    QuotientIs(size + sectorSize - 1, sectorSize, n, if r != 0 then r - 1 else sectorSize - 1);
  }

  lemma RoundedOnce(x: nat, y: nat, size: nat, sectorSize: nat)
    requires sectorSize > 0 && Rounded(x, size, sectorSize) && Rounded(y, size, sectorSize)
    ensures x == y
  {
    if x < y { GridApart(x, y, sectorSize); }
    if y < x { GridApart(y, x, sectorSize); }
  }

  /** The sectors of a buffer do not fit the disk exactly when its bytes do not. */
  lemma OutOfDisk(lba: nat, size: nat, numSectors: nat, sectorSize: nat)
    requires sectorSize > 0
    ensures lba + Sectors(size, sectorSize) > numSectors <==> lba * sectorSize + size > numSectors * sectorSize
  {
    hide Sectors;
    SectorsAre(size, sectorSize);
    var n := Sectors(size, sectorSize);
    Scaled(lba, n, sectorSize);
    if lba + n > numSectors {
      if n == 0 { Apart(numSectors, lba, sectorSize); }
      else {
        Scaled(lba + n - 1, 1, sectorSize);
        Scaled(numSectors, lba + n - 1 - numSectors, sectorSize);
      }
    } else {
      Scaled(lba + n, numSectors - lba - n, sectorSize);
    }
  }

  lemma PlanStep(bytes: nat, address: nat, lba: nat, sectorSize: nat, bulk: nat)
    requires sectorSize > 0 && bulk > 0 && bytes > 0
    ensures var f := Fetched(bytes, bulk); var parts := Plan(bytes, address, lba, sectorSize, bulk);
            var rest := Plan(bytes - f, address + f, lba + Blocks(f, sectorSize), sectorSize, bulk);
            && parts == [Part(lba, Blocks(f, sectorSize), address, f)] + rest
            && (AllComplete(parts) <==> Complete(f, address) && AllComplete(rest))
  {
    var f, parts := Fetched(bytes, bulk), Plan(bytes, address, lba, sectorSize, bulk);
    var rest := Plan(bytes - f, address + f, lba + Blocks(f, sectorSize), sectorSize, bulk);
    assert forall i :: 0 <= i < |rest| ==> rest[i] == parts[i + 1];
    assert parts[0] == Part(lba, Blocks(f, sectorSize), address, f);
    assert forall i :: 0 < i < |parts| ==> parts[i] == rest[i - 1];
  }

  ghost predicate AllRoomy(words: seq<bv32>, parts: seq<Part>) {
    forall i :: 0 <= i < |parts| ==> Roomy(words, parts[i].bytes, parts[i].address)
  }

  ghost predicate NoneStops(words: seq<bv32>, parts: seq<Part>, sectorSize: nat)
    requires sectorSize > 0
  {
    forall i :: 0 <= i < |parts| ==> !Stops(words, parts[i].bytes, parts[i].address, sectorSize)
  }

  /** With at most 2 MiB to a command every list is complete, and the allocator needs one page for it. */
  lemma {:induction false} ShortListsComplete(words: seq<bv32>, bytes: nat, address: nat, lba: nat, sectorSize: nat,
                                              bulk: nat)
    requires sectorSize > 0 && bulk > 0 && Fetched(bytes, bulk) <= LIST_ENTRIES * PAGE && Confined(words, 1)
    ensures var parts := Plan(bytes, address, lba, sectorSize, bulk); AllComplete(parts) && AllRoomy(words, parts)
    decreases bytes
  {
    hide Confined, Blocks;
    if bytes > 0 {
      var f := Fetched(bytes, bulk);
      PlanStep(bytes, address, lba, sectorSize, bulk);
      ShortListsComplete(words, bytes - f, address + f, lba + Blocks(f, sectorSize), sectorSize, bulk);
    }
  }

  /** The loop of both directions. It panics exactly when one of its rounds does. */
  method TransferAll(controller: NvmeController, write: bool, disk: NvmeDisk, lba: nat, bytes: nat, address: nat)
    returns (panicked: bool)
    requires controller.Ready() && disk.sectorSize > 0 && controller.BulkSize(disk.sectorSize) > 0
    requires AllRoomy(controller.allocator.bitmap[..],
                      Plan(bytes, address, lba, disk.sectorSize, controller.BulkSize(disk.sectorSize)))
    modifies controller, controller.allocator`current, controller.allocator.bitmap
    ensures var plan := Plan(bytes, address, lba, disk.sectorSize, controller.BulkSize(disk.sectorSize));
            && panicked == !NoneStops(old(controller.allocator.bitmap[..]), plan, disk.sectorSize)
            && Sent(old(controller.log), controller.log, write, disk.nsid, plan, panicked)
    ensures !panicked ==>
        controller.Ready() && controller.allocator.bitmap[..] == old(controller.allocator.bitmap[..])
  {
    hide Issued, Describes, Complete, Roomy, Stops, Plan, controller.Ready, Blocks, RightByChance;
    var remaining: nat, at: nat, currentLba: nat := bytes, address, lba;
    ghost var bulk, words := controller.BulkSize(disk.sectorSize), controller.allocator.bitmap[..];
    ghost var plan := Plan(bytes, address, lba, disk.sectorSize, bulk);
    ghost var done := 0;
    while remaining > 0
      invariant controller.Ready() && controller.allocator.bitmap[..] == words && done <= |plan|
      invariant Sent(old(controller.log), controller.log, write, disk.nsid, plan[..done], false)
      invariant forall i :: 0 <= i < done ==> !Stops(words, plan[i].bytes, plan[i].address, disk.sectorSize)
      invariant plan[done..] == Plan(remaining, at, currentLba, disk.sectorSize, bulk)
    {
      PlanStep(remaining, at, currentLba, disk.sectorSize, bulk);
      assert plan[done] == plan[done..][0] && plan[done + 1..] == plan[done..][1..];
      var fetched := if remaining > controller.BulkSize(disk.sectorSize) then controller.BulkSize(disk.sectorSize)
        else remaining;
      ghost var was := controller.log;
      var blocks;
      blocks, panicked := controller.Dispatch(write, disk.nsid, currentLba, disk.sectorSize, fetched, at);
      if panicked {
        SentPart(old(controller.log), controller.log, write, disk.nsid, plan, done);
        return;
      }
      SentMore(old(controller.log), was, controller.log, write, disk.nsid, plan, done);
      done := done + 1;
      at := at + fetched;
      remaining := remaining - fetched;
      currentLba := currentLba + blocks;
    }
    NothingLeft(at, currentLba, disk.sectorSize, bulk);
    assert plan[..done] == plan;
    panicked := false;
  }

  /** The log after the commands for the parts of a plan, or for the first of them. */
  ghost predicate Sent(before: seq<Command>, after: seq<Command>, write: bool, nsid: nat, plan: seq<Part>, partly: bool)
  {
    && before <= after && |after| - |before| <= |plan|
    && AllIssued(after[|before|..], if partly then plan[..|after| - |before|] else plan)
    && forall c :: c in after[|before|..] ==> c.write == write && c.nsid == nsid
  }

  lemma SentPart(before: seq<Command>, after: seq<Command>, write: bool, nsid: nat, plan: seq<Part>, done: nat)
    requires done <= |plan| && Sent(before, after, write, nsid, plan[..done], false)
    ensures Sent(before, after, write, nsid, plan, true)
  {
  }

  lemma SentMore(before: seq<Command>, was: seq<Command>, now: seq<Command>, write: bool, nsid: nat,
                 plan: seq<Part>, done: nat)
    requires done < |plan| && Sent(before, was, write, nsid, plan[..done], false)
    requires |now| == |was| + 1 && was <= now && now[|was|].write == write && now[|was|].nsid == nsid
    requires Issued(now[|was|], plan[done])
    requires Complete(plan[done].bytes, plan[done].address) ==> Carries(now[|was|], plan[done])
    ensures Sent(before, now, write, nsid, plan[..done + 1], false)
  {
    hide Issued, Carries, Complete;
    assert now[|before|..] == was[|before|..] + [now[|was|]];
  }

  lemma NothingLeft(address: nat, lba: nat, sectorSize: nat, bulk: nat)
    requires sectorSize > 0 && bulk > 0
    ensures Plan(0, address, lba, sectorSize, bulk) == []
  {
  }

  /** What both directions ensure: nothing happens on an error; otherwise the planned commands are carried
      out, unless one of them panics. */
  ghost predicate Transferred(words: seq<bv32>, before: seq<Command>, after: seq<Command>, write: bool, disk: NvmeDisk,
                              lba: nat, size: nat, address: nat, bulk: nat, r: DiskIoResult, panicked: bool)
    requires disk.sectorSize > 0 && bulk > 0
  {
    if r != Success then after == before && !panicked
    else
      var plan := Plan(Sectors(size, disk.sectorSize) * disk.sectorSize, address, lba, disk.sectorSize, bulk);
      && lba + Sectors(size, disk.sectorSize) <= disk.numSectors
      && panicked == !NoneStops(words, plan, disk.sectorSize)
      && Sent(before, after, write, disk.nsid, plan, panicked)
  }

  // ----- every byte exactly once

  lemma WholeBlocks(f: nat, sectorSize: nat)
    requires sectorSize > 0 && f % sectorSize == 0 && f / sectorSize < 0x1_0000
    ensures Blocks(f, sectorSize) * sectorSize == f
  {
  }

  lemma LeftOver(total: nat, f: nat, sectorSize: nat)
    requires sectorSize > 0 && f <= total && total % sectorSize == 0 && f % sectorSize == 0
    ensures (total - f) % sectorSize == 0 && (total - f) / sectorSize <= total / sectorSize
  {
    DivMonotone(f, total, sectorSize);
    var q := total / sectorSize - f / sectorSize;
    assert total == total / sectorSize * sectorSize && f == f / sectorSize * sectorSize;
    Scaled(f / sectorSize, q, sectorSize);
    DivUnique(total - f, sectorSize, q);
  }

  /** Byte `d` of the disk is carried by exactly one command, from or to the buffer's address plus its offset,
      when it is in range, and by none when it is not; provided that every list is complete, and that the sector size
      divides the bulk size or that one command is enough. */
  lemma {:induction false} EveryByteOnce(commands: seq<Command>, total: nat, address: nat,
                                         lba: nat, sectorSize: nat, bulk: nat, d: nat)
    requires sectorSize > 0 && bulk > 0 && total % sectorSize == 0 && Fetched(total, bulk) / sectorSize < 0x1_0000
    requires total <= bulk || bulk % sectorSize == 0
    requires AllIssued(commands, Plan(total, address, lba, sectorSize, bulk))
    requires AllComplete(Plan(total, address, lba, sectorSize, bulk))
    ensures Carried(commands, sectorSize, d) ==
            if lba * sectorSize <= d < lba * sectorSize + total then [Some(address + (d - lba * sectorSize))] else []
    decreases total
  {
    hide PrpByte, Blocks, Complete, Plan;
    if total == 0 {
      NothingLeft(address, lba, sectorSize, bulk);
    } else {
      var f := Fetched(total, bulk);
      var n := Blocks(f, sectorSize);
      PlanStep(total, address, lba, sectorSize, bulk);
      assert Carries(commands[0], Part(lba, n, address, f));
      WholeBlocks(f, sectorSize);
      LeftOver(total, f, sectorSize);
      Scaled(lba, n, sectorSize);
      FewerBlocks(total - f, total, bulk, sectorSize);
      EveryByteOnce(commands[1..], total - f, address + f, lba + n, sectorSize, bulk, d);
    }
  }

  lemma FewerBlocks(rest: nat, total: nat, bulk: nat, sectorSize: nat)
    requires sectorSize > 0 && rest <= total && rest / sectorSize <= total / sectorSize
        && Fetched(total, bulk) / sectorSize < 0x1_0000
    ensures Fetched(rest, bulk) / sectorSize < 0x1_0000
  {
    if rest < bulk < total { DivMonotone(rest, bulk, sectorSize); }
  }

  /** The offset in the buffer and the offset on the disk are the same for every command. */
  ghost predicate InStep(parts: seq<Part>, address: nat, lba: nat, sectorSize: nat) {
    forall i :: 0 <= i < |parts| ==> parts[i].address - address == (parts[i].lba - lba) * sectorSize
  }

  /** That condition is exact: otherwise the second command takes its bytes from the wrong place. */
  lemma InStepExactly(total: nat, address: nat, lba: nat, sectorSize: nat, bulk: nat)
    requires sectorSize > 0 && bulk > 0 && total % sectorSize == 0 && Fetched(total, bulk) / sectorSize < 0x1_0000
    ensures InStep(Plan(total, address, lba, sectorSize, bulk), address, lba, sectorSize) <==>
        total <= bulk || bulk % sectorSize == 0
  {
    if total <= bulk || bulk % sectorSize == 0 {
      StaysInStep(total, address, lba, sectorSize, bulk, address, lba);
    } else {
      PlanStep(total, address, lba, sectorSize, bulk);
      PlanStep(total - bulk, address + bulk, lba + Blocks(bulk, sectorSize), sectorSize, bulk);
      var parts := Plan(total, address, lba, sectorSize, bulk);
      assert parts[1].address == address + bulk && parts[1].lba == lba + Blocks(bulk, sectorSize);
      if bulk == Blocks(bulk, sectorSize) * sectorSize { DivUnique(bulk, sectorSize, Blocks(bulk, sectorSize)); }
    }
  }

  lemma {:induction false} StaysInStep(total: nat, address: nat, lba: nat, sectorSize: nat,
                                       bulk: nat, address0: nat, lba0: nat)
    requires sectorSize > 0 && bulk > 0 && total % sectorSize == 0 && Fetched(total, bulk) / sectorSize < 0x1_0000
    requires total <= bulk || bulk % sectorSize == 0
    requires lba0 <= lba && address - address0 == (lba - lba0) * sectorSize
    ensures InStep(Plan(total, address, lba, sectorSize, bulk), address0, lba0, sectorSize)
    decreases total
  {
    hide Blocks, Complete, Plan;
    if total == 0 {
      NothingLeft(address, lba, sectorSize, bulk);
    } else {
      var f := Fetched(total, bulk);
      var n := Blocks(f, sectorSize);
      PlanStep(total, address, lba, sectorSize, bulk);
      WholeBlocks(f, sectorSize);
      LeftOver(total, f, sectorSize);
      Scaled(lba - lba0, n, sectorSize);
      FewerBlocks(total - f, total, bulk, sectorSize);
      StaysInStep(total - f, address + f, lba + n, sectorSize, bulk, address0, lba0);
    }
  }

  // ----- a whole buffer

  /** What `EveryByteOnce` asks for. */
  ghost predicate Suits(total: nat, address: nat, lba: nat, sectorSize: nat, bulk: nat)
    requires sectorSize > 0 && bulk > 0
  {
    && Fetched(total, bulk) / sectorSize < 0x1_0000 && (total <= bulk || bulk % sectorSize == 0)
    && AllComplete(Plan(total, address, lba, sectorSize, bulk))
  }

  /** Each byte of the buffer is carried exactly once, and nothing but `total` bytes is carried at all. */
  ghost predicate CarriesBuffer(commands: seq<Command>, sectorSize: nat, lba: nat, size: nat, total: nat, address: nat)
  {
    && (forall d: nat :: lba * sectorSize <= d < lba * sectorSize + size ==>
          Carried(commands, sectorSize, d) == [Some(address + (d - lba * sectorSize))])
    && (forall d: nat, x :: x in Carried(commands, sectorSize, d) ==>
          lba * sectorSize <= d < lba * sectorSize + total && x.Some? && address <= x.value < address + total)
  }

  /** As few commands as the limit allows. */
  ghost predicate Divided(n: nat, total: nat, limit: nat) {
    total <= n * limit && (n > 0 ==> (n - 1) * limit < total)
  }

  /** A command exceeds the limit by less than a sector, and not at all when the limit is in whole sectors. */
  ghost predicate WithinLimit(c: Command, sectorSize: nat, limit: nat)
    requires sectorSize > 0
  {
    c.blocks * sectorSize < limit + sectorSize && (limit % sectorSize == 0 ==> c.blocks * sectorSize <= limit)
  }

  /** What the commands do with a buffer of `size` bytes, in whole sectors. */
  ghost predicate Moved(commands: seq<Command>, sectorSize: nat, lba: nat, size: nat, address: nat, limit: nat)
    requires sectorSize > 0 && limit > 0
  {
    && (forall total :: Rounded(total, size, sectorSize) ==>
          && Divided(|commands|, total, limit)
          && (Suits(total, address, lba, sectorSize, limit) ==>
                CarriesBuffer(commands, sectorSize, lba, size, total, address)))
    && forall c :: c in commands ==> WithinLimit(c, sectorSize, limit)
  }

  lemma {:induction false} PlanDivides(bytes: nat, address: nat, lba: nat, sectorSize: nat, bulk: nat)
    requires sectorSize > 0 && bulk > 0
    ensures Divided(|Plan(bytes, address, lba, sectorSize, bulk)|, bytes, bulk)
    decreases bytes
  {
    hide Plan, Blocks;
    if bytes == 0 {
      NothingLeft(address, lba, sectorSize, bulk);
    } else {
      var f := Fetched(bytes, bulk);
      PlanStep(bytes, address, lba, sectorSize, bulk);
      PlanDivides(bytes - f, address + f, lba + Blocks(f, sectorSize), sectorSize, bulk);
      var n := |Plan(bytes - f, address + f, lba + Blocks(f, sectorSize), sectorSize, bulk)|;
      Scaled(n, 1, bulk);
      if n > 0 { Scaled(n - 1, 1, bulk); }
    }
  }

  lemma BlocksWithin(bytes: nat, sectorSize: nat, bulk: nat)
    requires sectorSize > 0 && bytes <= bulk
    ensures var n := Blocks(bytes, sectorSize) * sectorSize;
            n < bulk + sectorSize && (bulk % sectorSize == 0 ==> n <= bulk)
  {
    var q, r, n := bytes / sectorSize, bytes % sectorSize, Blocks(bytes, sectorSize);
    var top := if r != 0 then q + 1 else q;
    assert bytes == q * sectorSize + r;
    Scaled(q, 1, sectorSize);
    assert n <= top;
    Scaled(n, top - n, sectorSize);
    if bulk % sectorSize == 0 && n * sectorSize > bulk {
      DivUnique(n * sectorSize, sectorSize, n);
      GridApart(bulk, n * sectorSize, sectorSize);
    }
  }

  lemma {:induction false} PlanWithin(bytes: nat, address: nat, lba: nat, sectorSize: nat, bulk: nat, i: nat)
    requires sectorSize > 0 && bulk > 0 && i < |Plan(bytes, address, lba, sectorSize, bulk)|
    ensures var n := Plan(bytes, address, lba, sectorSize, bulk)[i].blocks * sectorSize;
            n < bulk + sectorSize && (bulk % sectorSize == 0 ==> n <= bulk)
    decreases bytes
  {
    hide Plan, Blocks;
    if bytes == 0 {
      NothingLeft(address, lba, sectorSize, bulk);
      assert false;
    } else {
      var f := Fetched(bytes, bulk);
      PlanStep(bytes, address, lba, sectorSize, bulk);
      BlocksWithin(f, sectorSize, bulk);
      if i > 0 { PlanWithin(bytes - f, address + f, lba + Blocks(f, sectorSize), sectorSize, bulk, i - 1); }
    }
  }

  lemma BufferCarried(commands: seq<Command>, sectorSize: nat, lba: nat, size: nat, total: nat, address: nat, bulk: nat)
    requires sectorSize > 0 && bulk > 0 && total % sectorSize == 0 && size <= total
    requires Suits(total, address, lba, sectorSize, bulk)
    requires AllIssued(commands, Plan(total, address, lba, sectorSize, bulk))
    ensures CarriesBuffer(commands, sectorSize, lba, size, total, address)
  {
    hide Plan, AllIssued, AllComplete, Carried;
    forall d: nat ensures Carried(commands, sectorSize, d) ==
                     if lba * sectorSize <= d < lba * sectorSize + total
                     then [Some(address + (d - lba * sectorSize))] else []
    {
      EveryByteOnce(commands, total, address, lba, sectorSize, bulk, d);
    }
  }

  lemma TransferredMoves(words: seq<bv32>, before: seq<Command>, after: seq<Command>, write: bool, disk: NvmeDisk,
                         lba: nat, size: nat, address: nat, bulk: nat)
    requires disk.sectorSize > 0 && bulk > 0
    requires Transferred(words, before, after, write, disk, lba, size, address, bulk, Success, false)
    ensures before <= after && Moved(after[|before|..], disk.sectorSize, lba, size, address, bulk)
  {
    hide Plan, AllIssued, Suits, CarriesBuffer, Divided, NoneStops, Sectors, Rounded;
    var commands := after[|before|..];
    var rounded := Sectors(size, disk.sectorSize) * disk.sectorSize;
    var plan := Plan(rounded, address, lba, disk.sectorSize, bulk);
    SectorsAre(size, disk.sectorSize);
    PlanDivides(rounded, address, lba, disk.sectorSize, bulk);
    RoundedFacts(rounded, size, disk.sectorSize);
    assert |commands| == |plan| by { IssuedInOrder(commands, plan); }
    forall total | Rounded(total, size, disk.sectorSize)
      ensures Divided(|commands|, total, bulk)
      ensures Suits(total, address, lba, disk.sectorSize, bulk) ==>
          CarriesBuffer(commands, disk.sectorSize, lba, size, total, address)
    {
      RoundedOnce(rounded, total, size, disk.sectorSize);
      if Suits(total, address, lba, disk.sectorSize, bulk) {
        BufferCarried(commands, disk.sectorSize, lba, size, total, address, bulk);
      }
    }
    forall c | c in commands ensures WithinLimit(c, disk.sectorSize, bulk) {
      var i :| 0 <= i < |commands| && commands[i] == c;
      IssuedInOrder(commands, plan);
      PlanWithin(rounded, address, lba, disk.sectorSize, bulk, i);
    }
  }

  lemma RoundedFacts(total: nat, size: nat, sectorSize: nat)
    requires sectorSize > 0 && Rounded(total, size, sectorSize)
    ensures total % sectorSize == 0 && size <= total
  {
  }

  lemma IssuedInOrder(commands: seq<Command>, parts: seq<Part>)
    requires AllIssued(commands, parts)
    ensures |commands| == |parts| && forall i :: 0 <= i < |parts| ==> commands[i].blocks == parts[i].blocks
  {
    hide Carries, Complete;
  }

  // ----- the two directions

  method WriteFromBuffer(controller: NvmeController, disk: NvmeDisk, lba: nat,
                         size: nat, address: nat, scheduler: nat)
    returns (r: DiskIoResult, panicked: bool)
    requires controller.Ready() && disk.sectorSize > 0 && controller.BulkSize(disk.sectorSize) > 0
    requires AllRoomy(controller.allocator.bitmap[..],
                      Plan(Sectors(size, disk.sectorSize) * disk.sectorSize, address, lba, disk.sectorSize,
                           controller.BulkSize(disk.sectorSize)))
    modifies controller, controller.allocator`current, controller.allocator.bitmap
    ensures r == if scheduler >= controller.numQueuesImplemented || scheduler == 0 then InvalidScheduler
                 else if lba * disk.sectorSize + size > disk.numSectors * disk.sectorSize then InvalidLba else Success
    ensures !panicked ==>
        controller.Ready() && controller.allocator.bitmap[..] == old(controller.allocator.bitmap[..])
    ensures Transferred(old(controller.allocator.bitmap[..]), old(controller.log), controller.log, true, disk,
                        lba, size, address, controller.BulkSize(disk.sectorSize), r, panicked)
    ensures r == Success && !panicked ==>
              && old(controller.log) <= controller.log
              && Moved(controller.log[|old(controller.log)|..], disk.sectorSize, lba, size, address,
                       if controller.maximumDataTransferSize == 0xFFFF then 0xFFFF * disk.sectorSize
                       else controller.maximumDataTransferSize)
  {
    hide Sent, Plan, NoneStops, AllRoomy, controller.Ready, Moved, Sectors;
    if scheduler > controller.numQueuesImplemented - 1 || scheduler == 0 {
      return InvalidScheduler, false;
    }
    var sectors := size / disk.sectorSize;
    if size % disk.sectorSize != 0 {
      sectors := sectors + 1;
    }
    SectorsAre(size, disk.sectorSize);
    OutOfDisk(lba, size, disk.numSectors, disk.sectorSize);
    if lba + sectors > disk.numSectors {
      return InvalidLba, false;
    }
    ghost var before, words := controller.log, controller.allocator.bitmap[..];
    panicked := TransferAll(controller, true, disk, lba, sectors * disk.sectorSize, address);
    if !panicked {
      TransferredMoves(words, before, controller.log, true, disk, lba, size, address,
                       controller.BulkSize(disk.sectorSize));
    }
    return Success, panicked;
  }

  method ReadIntoBuffer(controller: NvmeController, disk: NvmeDisk, lba: nat,
                        size: nat, address: nat, readonly: bool, scheduler: nat)
    returns (r: DiskIoResult, panicked: bool)
    requires controller.Ready() && disk.sectorSize > 0 && controller.BulkSize(disk.sectorSize) > 0
    requires AllRoomy(controller.allocator.bitmap[..],
                      Plan(Sectors(size, disk.sectorSize) * disk.sectorSize, address, lba, disk.sectorSize,
                           controller.BulkSize(disk.sectorSize)))
    modifies controller, controller.allocator`current, controller.allocator.bitmap
    ensures r == if scheduler >= controller.numQueuesImplemented || scheduler == 0 then InvalidScheduler
                 else if readonly then BufferReadonly
                 else if lba * disk.sectorSize + size > disk.numSectors * disk.sectorSize then InvalidLba else Success
    ensures !panicked ==>
        controller.Ready() && controller.allocator.bitmap[..] == old(controller.allocator.bitmap[..])
    ensures Transferred(old(controller.allocator.bitmap[..]), old(controller.log), controller.log, false, disk,
                        lba, size, address, controller.BulkSize(disk.sectorSize), r, panicked)
    ensures r == Success && !panicked ==>
              && old(controller.log) <= controller.log
              && Moved(controller.log[|old(controller.log)|..], disk.sectorSize, lba, size, address,
                       if controller.maximumDataTransferSize == 0xFFFF then 0xFFFF * disk.sectorSize
                       else controller.maximumDataTransferSize)
  {
    hide Sent, Plan, NoneStops, AllRoomy, controller.Ready, Moved, Sectors;
    if scheduler > controller.numQueuesImplemented - 1 || scheduler == 0 {
      return InvalidScheduler, false;
    }
    if readonly {
      return BufferReadonly, false;
    }
    var sectors := size / disk.sectorSize;
    if size % disk.sectorSize != 0 {
      sectors := sectors + 1;
    }
    SectorsAre(size, disk.sectorSize);
    OutOfDisk(lba, size, disk.numSectors, disk.sectorSize);
    if lba + sectors > disk.numSectors {
      return InvalidLba, false;
    }
    ghost var before, words := controller.log, controller.allocator.bitmap[..];
    panicked := TransferAll(controller, false, disk, lba, sectors * disk.sectorSize, address);
    if !panicked {
      TransferredMoves(words, before, controller.log, false, disk, lba, size, address,
                       controller.BulkSize(disk.sectorSize));
    }
    return Success, panicked;
  }
}
