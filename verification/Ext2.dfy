/** Where an inode lies on the disk (pfs/linux.rs, `read_inode`), down to the commands that fetch it. */
module Ext2 {
  import opened Memory
  import opened Multiples
  import opened Nvme

  const INODE_SIZE: nat := 128

  /** `1024 << logSize`. */
  function FullBlockSize(logSize: nat): (s: nat)
    ensures s == 1024 * Power2(logSize) && s >= 1024 && s % 128 == 0
  {
    if logSize == 0 then 1024 else 2 * FullBlockSize(logSize - 1)
  }

  function Quotient(a: nat, b: nat): nat
    requires b > 0
  {
    a / b
  }

  datatype Geometry = Geometry(inodesPerBlockGroup: nat, logSize: nat, startingLba: nat, inodeTables: seq<nat>) {
    function BlockGroupOf(inode: nat): nat
      requires inode > 0 && inodesPerBlockGroup > 0
    {
      (inode - 1) / inodesPerBlockGroup
    }

    function IndexIntoBlockGroup(inode: nat): nat
      requires inode > 0 && inodesPerBlockGroup > 0
    {
      (inode - 1) % inodesPerBlockGroup
    }

    function BlockContaining(index: nat): nat { Quotient(index * INODE_SIZE, FullBlockSize(logSize)) }

    /** The number of inodes between the first one of the block and this one. */
    function InodeOffset(inode: nat): int
      requires inode > 0 && inodesPerBlockGroup > 0
    {
      var block := BlockContaining(IndexIntoBlockGroup(inode));
      inode - (BlockGroupOf(inode) * inodesPerBlockGroup + block * FullBlockSize(logSize) / INODE_SIZE + 1)
    }

    /** The sector that the read begins at. */
    function Lba(inode: nat, sectorSize: nat): nat
      requires inode > 0 && inodesPerBlockGroup > 0 && sectorSize > 0 && BlockGroupOf(inode) < |inodeTables|
    {
      var block := inodeTables[BlockGroupOf(inode)] + BlockContaining(IndexIntoBlockGroup(inode));
      startingLba + block * FullBlockSize(logSize) / sectorSize
    }

    /** Where the record of an inode should be: entry `index` of the inode table of its group. */
    function Place(inode: nat, sectorSize: nat): nat
      requires inode > 0 && inodesPerBlockGroup > 0 && BlockGroupOf(inode) < |inodeTables|
    {
      startingLba * sectorSize + inodeTables[(inode - 1) / inodesPerBlockGroup] * (1024 * Power2(logSize))
        + (inode - 1) % inodesPerBlockGroup * 128
    }
  }

  /** Blocks hold a whole number of inodes, so the split into block and slot is a division with remainder. */
  lemma SlotInBlock(index: nat, size: nat)
    requires size > 0 && size % INODE_SIZE == 0
    ensures var block := index * INODE_SIZE / size; var first := block * size / INODE_SIZE;
            && first * INODE_SIZE == block * size && first <= index && (index - first) * INODE_SIZE < size
  {
    var block := index * INODE_SIZE / size;
    var n := size / INODE_SIZE;
    assert size == n * INODE_SIZE;
    assert block * size == (block * n) * INODE_SIZE by { Regroup(block, n, INODE_SIZE); }
    DivUnique(block * size, INODE_SIZE, block * n);
    assert index * INODE_SIZE == block * size + index * INODE_SIZE % size;
  }

  lemma Regroup(a: nat, b: nat, c: nat)
    ensures a * (b * c) == (a * b) * c
  {
  }

  lemma SectorOfBlock(start: nat, block: nat, size: nat, sectorSize: nat)
    requires sectorSize > 0 && size % sectorSize == 0
    ensures (start + block * size / sectorSize) * sectorSize == start * sectorSize + block * size
  {
    var k := size / sectorSize;
    assert size == k * sectorSize;
    Regroup(block, k, sectorSize);
    DivUnique(block * size, sectorSize, block * k);
    Scaled(start, block * k, sectorSize);
  }

  /** The read begins at the sector, and the record lies at the slot within it, that together make up the
      place of the inode; and the slot lies inside one block. */
  lemma InodeIsInPlace(g: Geometry, inode: nat, sectorSize: nat)
    requires inode > 0 && g.inodesPerBlockGroup > 0 && sectorSize > 0 && g.BlockGroupOf(inode) < |g.inodeTables|
    requires FullBlockSize(g.logSize) % sectorSize == 0
    ensures 0 <= g.InodeOffset(inode) && g.InodeOffset(inode) * INODE_SIZE + INODE_SIZE <= FullBlockSize(g.logSize)
    ensures g.Lba(inode, sectorSize) * sectorSize + g.InodeOffset(inode) * INODE_SIZE == g.Place(inode, sectorSize)
  {
    var size, index, table :=
      FullBlockSize(g.logSize), g.IndexIntoBlockGroup(inode), g.inodeTables[g.BlockGroupOf(inode)];
    var block := g.BlockContaining(index);
    SlotInBlock(index, size);
    assert inode - 1 == g.BlockGroupOf(inode) * g.inodesPerBlockGroup + index;
    assert g.InodeOffset(inode) == index - block * size / INODE_SIZE;
    SectorOfBlock(g.startingLba, table + block, size, sectorSize);
    Scaled(table, block, size);
    WholeSlots(g.InodeOffset(inode), size);
  }

  lemma WholeSlots(offset: nat, size: nat)
    requires size % INODE_SIZE == 0 && offset * INODE_SIZE < size
    ensures offset * INODE_SIZE + INODE_SIZE <= size
  {
  }

  /** Different inodes of a group do not overlap. */
  lemma InodesApart(g: Geometry, a: nat, b: nat, sectorSize: nat)
    requires 0 < a < b && g.inodesPerBlockGroup > 0 && g.BlockGroupOf(a) == g.BlockGroupOf(b) < |g.inodeTables|
    ensures g.Place(a, sectorSize) + INODE_SIZE <= g.Place(b, sectorSize)
  {
    assert a - 1 == g.BlockGroupOf(a) * g.inodesPerBlockGroup + g.IndexIntoBlockGroup(a);
    assert b - 1 == g.BlockGroupOf(b) * g.inodesPerBlockGroup + g.IndexIntoBlockGroup(b);
  }

  /** Reading from that sector fetches each byte of the record to its offset in the buffer, exactly once. */
  lemma InodeIsRead(g: Geometry, inode: nat, sectorSize: nat, bulk: nat, address: nat, commands: seq<Command>, k: nat)
    requires inode > 0 && g.inodesPerBlockGroup > 0 && sectorSize > 0 && g.BlockGroupOf(inode) < |g.inodeTables|
    requires FullBlockSize(g.logSize) % sectorSize == 0 && k < INODE_SIZE
    requires g.InodeOffset(inode) >= 0 && bulk > 0
    requires var total := Sectors((g.InodeOffset(inode) + 1) * INODE_SIZE, sectorSize) * sectorSize;
             && (total <= bulk || bulk % sectorSize == 0) && Fetched(total, bulk) / sectorSize < 0x1_0000
             && var plan := Plan(total, address, g.Lba(inode, sectorSize), sectorSize, bulk);
             AllIssued(commands, plan) && AllComplete(plan)
    ensures Carried(commands, sectorSize, g.Place(inode, sectorSize) + k)
        == [Some(address + g.InodeOffset(inode) * INODE_SIZE + k)]
  {
    hide AllIssued, AllComplete, Plan, Carried;
    var size := (g.InodeOffset(inode) + 1) * INODE_SIZE;
    var n := Sectors(size, sectorSize);
    InodeIsInPlace(g, inode, sectorSize);
    SectorsAre(size, sectorSize);
    DivUnique(n * sectorSize, sectorSize, n);
    EveryByteOnce(commands, n * sectorSize, address, g.Lba(inode, sectorSize),
      sectorSize, bulk, g.Place(inode, sectorSize) + k);
  }
}
