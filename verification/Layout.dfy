/** The regions that formatting lays out in a partition. */
module Layout {
  import opened Sectors
  import opened BitRuns
  import opened NodeTable

  const BOOT_SECTORS := 1
  const SUPER_BLOCK_SECTORS := 1
  const BITS_PER_SECTOR := 4096
  const NODE_BITMAP_SECTORS := 1
  const USED_SECTORS := 611
  /** 80 MB. */
  const MAX_DISK_SECTORS := 163840

  /** The part of the super block that places the regions. */
  datatype SuperBlock = SuperBlock(
    partStart: nat, partSectors: nat,
    blockBitmapStart: nat, blockBitmapSectors: nat,
    nodeBitmapStart: nat, nodeBitmapSectors: nat,
    nodesStart: nat, nodesSectors: nat, dataStart: nat)

  /** The sectors of the block bitmap and, second, the number of its bits that stand for blocks. */
  function CalcSectorCountForBlockBitmap(freeSectors: nat): (nat, nat)
  {
    var bitmapSectors := RoundUpDivide(freeSectors, BITS_PER_SECTOR);
    var bitLen := freeSectors - bitmapSectors;
    (RoundUpDivide(bitLen, BITS_PER_SECTOR), bitLen)
  }

  /** Formatting needs room for its own regions, the root block and one bitmap sector. */
  predicate LargeEnough(partSectors: nat) {
    partSectors >= USED_SECTORS + 2
  }

  function FormatPart(partStart: nat, partSectors: nat): SuperBlock
    requires LargeEnough(partSectors)
  {
    var freeSectors := partSectors - USED_SECTORS;
    var blockBitmapSectors := CalcSectorCountForBlockBitmap(freeSectors).0;
    var blockBitmapStart := partStart + BOOT_SECTORS + SUPER_BLOCK_SECTORS;
    var nodeBitmapStart := blockBitmapStart + blockBitmapSectors;
    var nodesStart := nodeBitmapStart + NODE_BITMAP_SECTORS;
    SuperBlock(partStart, partSectors, blockBitmapStart, blockBitmapSectors, nodeBitmapStart, NODE_BITMAP_SECTORS,
               nodesStart, NODE_SECTORS, nodesStart + NODE_SECTORS)
  }

  /** The number of blocks that the block bitmap of a formatted partition manages. */
  function BlockCount(partSectors: nat): nat
    requires LargeEnough(partSectors)
  {
    CalcSectorCountForBlockBitmap(partSectors - USED_SECTORS).1
  }

  /**
   The regions follow one another without overlap, every block that the bitmap manages lies
   in the partition, and on a disk within the size limit at most one sector at the end is
   not managed by anything.
   */
  lemma RegionsInOrder(partStart: nat, partSectors: nat)
    requires LargeEnough(partSectors)
    ensures var s := FormatPart(partStart, partSectors);
      var bitLen := BlockCount(partSectors);
      && s.partStart == partStart && s.partSectors == partSectors
      && partStart + BOOT_SECTORS + SUPER_BLOCK_SECTORS == s.blockBitmapStart
      && s.blockBitmapStart + s.blockBitmapSectors == s.nodeBitmapStart
      && s.nodeBitmapStart + s.nodeBitmapSectors == s.nodesStart
      && s.nodesStart + s.nodesSectors == s.dataStart
      && 0 < bitLen <= s.blockBitmapSectors * BITS_PER_SECTOR < bitLen + BITS_PER_SECTOR
      && s.dataStart + bitLen <= partStart + partSectors
      && (partSectors <= MAX_DISK_SECTORS ==> partStart + partSectors - 1 <= s.dataStart + bitLen)
      && MAX_FILES * NODE_SIZE == s.nodesSectors * SECTOR_SIZE
      && MAX_FILES == s.nodeBitmapSectors * BITS_PER_SECTOR
  {
    var free := partSectors - USED_SECTORS;
    var b := RoundUpDivide(free, BITS_PER_SECTOR);
    var bitLen := free - b;
    assert 1 <= b <= free - 1;
    var b' := RoundUpDivide(bitLen, BITS_PER_SECTOR);
    assert (b - 1) * BITS_PER_SECTOR < free <= b * BITS_PER_SECTOR;
    assert (b' - 1) * BITS_PER_SECTOR < bitLen <= b' * BITS_PER_SECTOR;
    assert b' <= b;
  }

  /**
   The sector is wasted exactly when giving the bitmap its sectors shrinks the data area
   enough to need one bitmap sector fewer.
   */
  lemma WasteExactly(partStart: nat, partSectors: nat)
    requires LargeEnough(partSectors) && partSectors <= MAX_DISK_SECTORS
    ensures var s := FormatPart(partStart, partSectors);
      var free := partSectors - USED_SECTORS;
      (s.dataStart + BlockCount(partSectors) < partStart + partSectors) <==>
      (0 < free % BITS_PER_SECTOR <= RoundUpDivide(free, BITS_PER_SECTOR))
  {
    var free := partSectors - USED_SECTORS;
    var b := RoundUpDivide(free, BITS_PER_SECTOR);
    assert b <= 40;
    assert free == free / BITS_PER_SECTOR * BITS_PER_SECTOR + free % BITS_PER_SECTOR;
    var bitLen := free - b;
    var b' := RoundUpDivide(bitLen, BITS_PER_SECTOR);
    assert (b' - 1) * BITS_PER_SECTOR < bitLen <= b' * BITS_PER_SECTOR;
  }

  /** The block bitmap that formatting writes: the root block and the padding are taken. */
  function InitialBlockBitmap(sectors: nat, bitLen: nat): (r: Bits)
    requires 0 < bitLen <= sectors * BITS_PER_SECTOR
    ensures |r| == sectors * BITS_PER_SECTOR
    ensures forall b :: 0 <= b < |r| ==> (r[b] <==> b == 0 || b >= bitLen)
  {
    var clear := seq(sectors * BITS_PER_SECTOR, _ => false);
    Mark(Mark(clear, 0, 1, true), bitLen, |clear| - bitLen, true)
  }

  /** The index node bitmap that formatting writes: only the root directory is live. */
  function InitialNodeBitmap(): (r: Bits)
    ensures |r| == MAX_FILES
    ensures forall i :: 0 <= i < MAX_FILES ==> (r[i] <==> i == 0)
  {
    seq(MAX_FILES, i => i == 0)
  }
}
