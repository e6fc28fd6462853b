/** What formatting writes to a partition, and what mounting it reads back. */
module DiskImage {
  import BitFields
  import opened BitRuns
  import opened Words
  import opened Sectors
  import opened IndexNodes
  import opened NodeTable
  import opened Layout

  // Sectors.

  /** `count` sectors from `lba` on, as one buffer. */
  function ReadSectors(disk: Disk, lba: nat, count: nat): (r: seq<Byte>)
    ensures |r| == count * SECTOR_SIZE
  {
    seq<Byte>(count * SECTOR_SIZE, k requires 0 <= k => AreaByte(disk, lba, k))
  }

  /** The disk after a buffer of whole sectors has been written from `lba` on. */
  function WriteSectors(disk: Disk, lba: nat, bytes: seq<Byte>): (r: Disk)
    requires IsDisk(disk) && |bytes| % SECTOR_SIZE == 0 && lba + |bytes| / SECTOR_SIZE <= |disk|
    ensures IsDisk(r) && |r| == |disk|
    ensures forall s :: 0 <= s < |disk| && !(lba <= s < lba + |bytes| / SECTOR_SIZE) ==> r[s] == disk[s]
  {
    seq(|disk|, s requires 0 <= s < |disk| =>
      if lba <= s < lba + |bytes| / SECTOR_SIZE then bytes[(s - lba) * SECTOR_SIZE..(s - lba + 1) * SECTOR_SIZE]
      else disk[s])
  }

  /** What has been written is read back. */
  lemma ReadWritten(disk: Disk, lba: nat, bytes: seq<Byte>)
    requires IsDisk(disk) && |bytes| % SECTOR_SIZE == 0 && lba + |bytes| / SECTOR_SIZE <= |disk|
    ensures ReadSectors(WriteSectors(disk, lba, bytes), lba, |bytes| / SECTOR_SIZE) == bytes
  {
    var count := |bytes| / SECTOR_SIZE;
    var (disk', r) := (WriteSectors(disk, lba, bytes), ReadSectors(WriteSectors(disk, lba, bytes), lba, count));
    forall k | 0 <= k < |bytes| ensures r[k] == bytes[k] {
      var (q, o) := (k / SECTOR_SIZE, k % SECTOR_SIZE);
      assert k == q * SECTOR_SIZE + o && q < count;
      assert disk'[lba + q] == bytes[q * SECTOR_SIZE..(q + 1) * SECTOR_SIZE];
    }
  }

  lemma ReadKept(disk: Disk, disk': Disk, lba: nat, count: nat)
    requires |disk| == |disk'| && forall s :: lba <= s < lba + count && s < |disk| ==> disk'[s] == disk[s]
    ensures ReadSectors(disk', lba, count) == ReadSectors(disk, lba, count)
  {
    forall k | 0 <= k < count * SECTOR_SIZE ensures AreaByte(disk', lba, k) == AreaByte(disk, lba, k) {
      assert k / SECTOR_SIZE < count;
    }
  }

  // Bitmaps.

  /** Bit `j` of a number. */
  predicate BitOf(v: nat, j: nat) {
    if j == 0 then v % 2 == 1 else BitOf(v / 2, j - 1)
  }

  lemma {:induction false} BitOfBits(bits: Bits, j: nat)
    requires j < |bits|
    ensures BitOf(BitFields.ValueOf(bits), j) == bits[j]
  {
    FirstBit(bits);
    if j > 0 {
      BitOfBits(bits[1..], j - 1);
    }
  }

  lemma FirstBit(bits: Bits)
    requires bits != []
    ensures BitFields.ValueOf(bits) % 2 == (if bits[0] then 1 else 0)
    ensures BitFields.ValueOf(bits) / 2 == BitFields.ValueOf(bits[1..])
  {
  }

  function PackByte(bits: Bits): Byte
    requires |bits| == 8
  {
    BitFields.ValueBelow(bits);
    assert BitFields.Pow2(8) == 256;
    BitFields.ValueOf(bits)
  }

  /** The buffer of a bitmap: flag `k` is bit `k % 8` of byte `k / 8`. */
  function PackBits(bits: Bits): (r: seq<Byte>)
    requires |bits| % 8 == 0
    ensures |r| == |bits| / 8
  {
    seq<Byte>(|bits| / 8, k requires 0 <= k < |bits| / 8 => PackByte(bits[8 * k..8 * k + 8]))
  }

  function UnpackBits(bytes: seq<Byte>): (r: Bits)
    ensures |r| == 8 * |bytes|
  {
    seq(8 * |bytes|, k requires 0 <= k < 8 * |bytes| => BitOf(bytes[k / 8], k % 8))
  }

  /** A stored bitmap is loaded as it was. */
  lemma UnpackPack(bits: Bits)
    requires |bits| % 8 == 0
    ensures UnpackBits(PackBits(bits)) == bits
  {
    forall k | 0 <= k < |bits| ensures UnpackBits(PackBits(bits))[k] == bits[k] {
      var byte := bits[8 * (k / 8)..8 * (k / 8) + 8];
      assert byte[k % 8] == bits[k];
      BitOfBits(byte, k % 8);
    }
  }

  /** Bit `j` of a byte. */
  ghost predicate IsBitSet(b: Byte, j: nat) {
    j < 8 && b / [1, 2, 4, 8, 16, 32, 64, 128][j] % 2 == 1
  }

  lemma BitIsSet(b: Byte, j: nat)
    requires j < 8
    ensures BitOf(b, j) <==> IsBitSet(b, j)
  {
    if j < 4 {
      LowBit(b, j);
    } else {
      HighBit(b, j);
      LowBit(b / 16, j - 4);
      assert b / 16 / 2 == b / 32 && b / 16 / 4 == b / 64 && b / 16 / 8 == b / 128;
    }
    hide BitOf;
  }

  lemma LowBit(v: nat, j: nat)
    requires j < 4
    ensures BitOf(v, j) <==> v / [1, 2, 4, 8][j] % 2 == 1
  {
    assert v / 2 / 2 == v / 4 && v / 4 / 2 == v / 8;
    assert BitOf(v, j) <==> if j == 0 then v % 2 == 1 else BitOf(v / 2, j - 1);
    assert j > 1 ==> (BitOf(v / 2, j - 1) <==> BitOf(v / 4, j - 2));
    assert j > 2 ==> (BitOf(v / 4, j - 2) <==> BitOf(v / 8, j - 3));
  }

  lemma HighBit(v: nat, j: nat)
    requires j >= 4
    ensures BitOf(v, j) <==> BitOf(v / 16, j - 4)
  {
    assert v / 2 / 2 == v / 4 && v / 4 / 2 == v / 8 && v / 8 / 2 == v / 16;
    assert BitOf(v, j) <==> BitOf(v / 2, j - 1);
    assert BitOf(v / 2, j - 1) <==> BitOf(v / 4, j - 2);
    assert BitOf(v / 4, j - 2) <==> BitOf(v / 8, j - 3);
  }

  /** Bit `k % 8` of byte `k / 8` is flag `k`, in the buffer and in the bitmap that is loaded from one. */
  lemma PackedBits(bits: Bits)
    requires |bits| % 8 == 0
    ensures forall k: nat :: k < |bits| ==> (IsBitSet(PackBits(bits)[k / 8], k % 8) <==> bits[k])
  {
    UnpackPack(bits);
    UnpackedBits(PackBits(bits));
  }

  lemma UnpackedBits(bytes: seq<Byte>)
    ensures forall k: nat :: k < 8 * |bytes| ==> (UnpackBits(bytes)[k] <==> IsBitSet(bytes[k / 8], k % 8))
  {
    forall k: nat | k < 8 * |bytes| ensures UnpackBits(bytes)[k] <==> IsBitSet(bytes[k / 8], k % 8) {
      BitIsSet(bytes[k / 8], k % 8);
      hide BitOf, IsBitSet;
    }
  }

  // The super block.

  /** Marks a formatted partition. */
  const SIGN: Word := 0x1122_3344

  predicate IsStorable(sb: SuperBlock) {
    && sb.partStart < WORD_LIMIT && sb.partSectors < WORD_LIMIT
    && sb.blockBitmapStart < WORD_LIMIT && sb.blockBitmapSectors < WORD_LIMIT
    && sb.nodeBitmapStart < WORD_LIMIT && sb.nodeBitmapSectors < WORD_LIMIT
    && sb.nodesStart < WORD_LIMIT && sb.nodesSectors < WORD_LIMIT && sb.dataStart < WORD_LIMIT
  }

  /** The words of the super block, padded to a sector. */
  function SuperWords(sb: SuperBlock): (r: seq<Word>)
    requires IsStorable(sb)
    ensures |r| == SECTOR_SIZE / 4
  {
    [SIGN, sb.partStart, sb.partSectors, MAX_FILES, sb.blockBitmapStart, sb.blockBitmapSectors, sb.nodeBitmapStart,
     sb.nodeBitmapSectors, sb.nodesStart, sb.nodesSectors, sb.dataStart, 0] + Zeros(SECTOR_SIZE / 4 - 12)
  }

  function EncodeSuper(sb: SuperBlock): (r: seq<Byte>)
    requires IsStorable(sb)
    ensures |r| == SECTOR_SIZE
  {
    EncodeWords(SuperWords(sb))
  }

  function DecodeSuper(sector: seq<Byte>): SuperBlock
    requires |sector| == SECTOR_SIZE
  {
    WordsSuper(DecodeWords(sector))
  }

  function WordsSuper(words: seq<Word>): SuperBlock
    requires |words| == SECTOR_SIZE / 4
  {
    SuperBlock(words[1], words[2], words[4], words[5], words[6], words[7], words[8], words[9], words[10])
  }

  predicate IsSigned(sector: seq<Byte>)
    requires |sector| == SECTOR_SIZE
  {
    DecodeWords(sector)[0] == SIGN
  }

  /** A stored super block is recognised, and loaded as it was. */
  lemma SuperRoundTrip(sb: SuperBlock)
    requires IsStorable(sb)
    ensures IsSigned(EncodeSuper(sb)) && DecodeSuper(EncodeSuper(sb)) == sb
  {
    hide *;
    SuperWordsRead(sb);
    DecodeEncode(SuperWords(sb));
    SuperStored(sb);
  }

  /** The fields of a super block at their places in its sector. */
  ghost predicate HasPlaces(sector: seq<Byte>, sb: SuperBlock) {
    && |sector| == 512
    && WordAt(sector, 4, sb.partStart) && WordAt(sector, 8, sb.partSectors)
    && WordAt(sector, 16, sb.blockBitmapStart) && WordAt(sector, 20, sb.blockBitmapSectors)
    && WordAt(sector, 24, sb.nodeBitmapStart) && WordAt(sector, 28, sb.nodeBitmapSectors)
    && WordAt(sector, 32, sb.nodesStart) && WordAt(sector, 36, sb.nodesSectors) && WordAt(sector, 40, sb.dataStart)
  }

  /** The sector of a super block: its sign, its fields, the number of nodes, and the root node's number 0. */
  ghost predicate IsSuper(sector: seq<Byte>, sb: SuperBlock) {
    && HasPlaces(sector, sb) && WordAt(sector, 0, 0x1122_3344) && WordAt(sector, 12, 4096) && WordAt(sector, 44, 0)
    && forall i: nat :: 12 <= i < 128 ==> WordAt(sector, 4 * i, 0)
  }

  lemma SuperBytes(sb: SuperBlock)
    requires IsStorable(sb)
    ensures IsSuper(EncodeSuper(sb), sb)
  {
    var words := SuperWords(sb);
    EncodedWords(words);
    SuperWordsAt(sb);
    hide EncodeWords, WordAt, SuperWords, IsSuper;
    PlacesOfWords(words, EncodeSuper(sb), sb);
  }

  lemma SuperWordsAt(sb: SuperBlock)
    requires IsStorable(sb)
    ensures var w := SuperWords(sb);
      && w[0] == 0x1122_3344 && w[1] == sb.partStart && w[2] == sb.partSectors && w[3] == 4096
      && w[4] == sb.blockBitmapStart && w[5] == sb.blockBitmapSectors && w[6] == sb.nodeBitmapStart
      && w[7] == sb.nodeBitmapSectors && w[8] == sb.nodesStart && w[9] == sb.nodesSectors && w[10] == sb.dataStart
      && forall i: nat :: 11 <= i < 128 ==> w[i] == 0
  {
  }

  lemma PlacesOfWords(w: seq<Word>, sector: seq<Byte>, sb: SuperBlock)
    requires |w| == 128 && |sector| == 512 && forall k: nat :: k < 128 ==> WordAt(sector, 4 * k, w[k])
    requires w[0] == 0x1122_3344 && w[1] == sb.partStart && w[2] == sb.partSectors && w[3] == 4096
    requires w[4] == sb.blockBitmapStart && w[5] == sb.blockBitmapSectors && w[6] == sb.nodeBitmapStart
    requires w[7] == sb.nodeBitmapSectors && w[8] == sb.nodesStart && w[9] == sb.nodesSectors && w[10] == sb.dataStart
    requires forall i: nat :: 11 <= i < 128 ==> w[i] == 0
    ensures IsSuper(sector, sb)
  {
    hide WordAt;
    assert w[11] == 0;
    forall i: nat | 12 <= i < 128 ensures WordAt(sector, 4 * i, 0) {
      assert WordAt(sector, 4 * i, w[i]);
    }
  }

  /** What is loaded from the sector of a super block, and when it counts as one. */
  lemma SuperFields(sector: seq<Byte>)
    requires |sector| == SECTOR_SIZE
    ensures HasPlaces(sector, DecodeSuper(sector))
    ensures IsSigned(sector) <==> WordAt(sector, 0, 0x1122_3344)
  {
    var words := DecodeWords(sector);
    DecodedWords(sector);
    hide DecodeWords;
    assert WordAt(sector, 4 * 0, words[0]);
    hide WordAt;
    var sb := WordsSuper(words);
    assert WordAt(sector, 4 * 1, words[1]) && WordAt(sector, 4 * 2, words[2]) && WordAt(sector, 4 * 4, words[4]);
  }

  lemma SuperStored(sb: SuperBlock)
    requires IsStorable(sb)
    ensures IsSigned(EncodeSuper(sb)) <==> DecodeWords(EncodeWords(SuperWords(sb)))[0] == SIGN
    ensures DecodeSuper(EncodeSuper(sb)) == WordsSuper(DecodeWords(EncodeWords(SuperWords(sb))))
  {
    hide SuperWords, DecodeWords, EncodeWords, WordsSuper;
  }

  lemma SuperWordsRead(sb: SuperBlock)
    requires IsStorable(sb)
    ensures SuperWords(sb)[0] == SIGN && WordsSuper(SuperWords(sb)) == sb
  {
  }

  // The root directory.

  /** The size of the two entries that the root directory starts with. */
  const ROOT_SIZE := 56

  /** The node of the root directory, whose entries fill the first data block. */
  function RootNode(dataStart: Word): (r: IdxNode)
    ensures r.idx == 0 && |r.direct| == DIRECT_COUNT
  {
    IdxNode(0, ROOT_SIZE, [dataStart] + Zeros(DIRECT_COUNT - 1), 0)
  }

  function ZeroBytes(n: nat): (r: seq<Byte>)
    ensures |r| == n
  {
    seq<Byte>(n, _ => 0)
  }

  const DOT: Byte := 0x2E
  const DIRECTORY: Byte := 2

  /** The stored directory entry of a directory: its type, its name in 17 bytes and padding, and node 0. */
  function EntryBytes(name: seq<Byte>): (r: seq<Byte>)
    requires |name| <= 17
    ensures |r| == ROOT_SIZE / 2
  {
    [DIRECTORY, 0, 0, 0] + name + ZeroBytes(20 - |name|) + [0, 0, 0, 0]
  }

  /** The root directory's entries for itself and its parent, which is itself. */
  function RootEntries(): (r: seq<Byte>)
    ensures |r| == ROOT_SIZE
  {
    EntryBytes([DOT]) + EntryBytes([DOT, DOT])
  }

  /** A sector with these entries: "." and "..", which are directories with node 0. */
  ghost predicate IsRootSector(sector: seq<Byte>) {
    && |sector| == 512
    && forall k: nat :: k < 512 ==>
         sector[k] == if k == 0 || k == 28 then 2 else if k == 4 || k == 32 || k == 33 then 0x2E else 0
  }

  lemma RootBytes()
    ensures IsRootSector(RootEntries() + ZeroBytes(SECTOR_SIZE - ROOT_SIZE))
  {
    var (a, b) := (EntryBytes([DOT]), EntryBytes([DOT, DOT]));
    assert forall k: nat :: k < 28 ==> a[k] == if k == 0 then 2 else if k == 4 then 0x2E else 0;
    assert forall k: nat :: k < 28 ==> b[k] == if k == 0 then 2 else if k == 4 || k == 5 then 0x2E else 0;
    hide EntryBytes;
  }

  /** The node area with the root directory's node only. */
  function RootNodeArea(dataStart: Word): (r: seq<Byte>)
    ensures |r| == NODE_SECTORS * SECTOR_SIZE
  {
    EncodeNode(RootNode(dataStart)) + ZeroBytes(NODE_SECTORS * SECTOR_SIZE - NODE_SIZE)
  }

  // Formatting and mounting.

  /** What mounting a partition loads; the index nodes are loaded when they are opened. */
  datatype Image = Image(sb: SuperBlock, blockBitmap: Bits, nodeBitmap: Bits)

  function SuperSector(disk: Disk, partStart: nat): seq<Byte> {
    ReadSectors(disk, partStart + BOOT_SECTORS, SUPER_BLOCK_SECTORS)
  }

  function LoadImage(disk: Disk, partStart: nat): Image {
    var sb := DecodeSuper(SuperSector(disk, partStart));
    Image(sb, UnpackBits(ReadSectors(disk, sb.blockBitmapStart, sb.blockBitmapSectors)),
          UnpackBits(ReadSectors(disk, sb.nodeBitmapStart, sb.nodeBitmapSectors)))
  }

  /** The regions of a super block follow one another within the disk. */
  predicate InOrder(sb: SuperBlock, bitLen: nat, disk: Disk) {
    && IsStorable(sb)
    && sb.partStart + BOOT_SECTORS + SUPER_BLOCK_SECTORS == sb.blockBitmapStart
    && sb.blockBitmapStart + sb.blockBitmapSectors == sb.nodeBitmapStart
    && sb.nodeBitmapStart + sb.nodeBitmapSectors == sb.nodesStart && sb.nodeBitmapSectors == NODE_BITMAP_SECTORS
    && sb.nodesStart + sb.nodesSectors == sb.dataStart && sb.nodesSectors == NODE_SECTORS
    && 0 < bitLen <= sb.blockBitmapSectors * BITS_PER_SECTOR && sb.dataStart + bitLen <= |disk|
  }

  /** Flag `b` of a bitmap as it lies on the disk from sector `lba` on. */
  ghost predicate BitLies(disk: Disk, lba: nat, b: nat, val: bool) {
    && lba + b / 4096 < |disk| && |disk[lba + b / 4096]| == 512
    && (IsBitSet(disk[lba + b / 4096][b % 4096 / 8], b % 8) <==> val)
  }

  ghost predicate BitmapAt(disk: Disk, lba: nat, bits: Bits) {
    forall b: nat :: b < |bits| ==> BitLies(disk, lba, b, bits[b])
  }

  /** A node area with only the root directory's node: its size is 56, and its one block is `dataStart`. */
  ghost predicate IsRootArea(disk: Disk, start: nat, dataStart: Word) {
    && IsDisk(disk) && start + 608 <= |disk|
    && IsSaved(disk, start, IdxNode(0, 56, [dataStart, 0, 0, 0, 0, 0, 0, 0, 0, 0, 0, 0], 0))
    && forall o: nat :: 76 <= o < 608 * 512 ==> ByteLies(disk, start, o, 0)
  }

  /**
   A formatted partition as it lies on the disk: the super block behind the boot sector, the
   bitmaps, the one node in its area, and the entries "." and "..".
   */
  ghost predicate IsFormatted(disk: Disk, sb: SuperBlock, bitLen: nat) {
    && IsDisk(disk) && InOrder(sb, bitLen, disk)
    && IsSuper(disk[sb.partStart + 1], sb)
    && BitmapAt(disk, sb.blockBitmapStart, InitialBlockBitmap(sb.blockBitmapSectors, bitLen))
    && BitmapAt(disk, sb.nodeBitmapStart, InitialNodeBitmap())
    && IsRootArea(disk, sb.nodesStart, sb.dataStart) && IsRootSector(disk[sb.dataStart])
  }

  /** Sectors that were read as one buffer, byte by byte. */
  lemma ReadBytes(disk: Disk, lba: nat, count: nat)
    requires IsDisk(disk) && lba + count <= |disk|
    ensures forall k: nat :: k < count * 512 ==> ByteLies(disk, lba, k, ReadSectors(disk, lba, count)[k])
  {
    forall k: nat | k < count * 512 ensures ByteLies(disk, lba, k, ReadSectors(disk, lba, count)[k]) {
      assert k / 512 < count;
    }
  }

  lemma BitmapLies(disk: Disk, lba: nat, sectors: nat, bits: Bits)
    requires IsDisk(disk) && lba + sectors <= |disk| && |bits| == sectors * 4096
    requires UnpackBits(ReadSectors(disk, lba, sectors)) == bits
    ensures BitmapAt(disk, lba, bits)
  {
    var bytes := ReadSectors(disk, lba, sectors);
    UnpackedBits(bytes);
    ReadBytes(disk, lba, sectors);
    hide *;
    forall b: nat | b < |bits| ensures BitLies(disk, lba, b, bits[b]) {
      BitOfByte(disk, lba, b, sectors, bytes[b / 8]);
    }
    BitmapOfBits(disk, lba, bits);
  }

  lemma BitmapOfBits(disk: Disk, lba: nat, bits: Bits)
    requires forall b: nat :: b < |bits| ==> BitLies(disk, lba, b, bits[b])
    ensures BitmapAt(disk, lba, bits)
  {
  }

  lemma BitOfByte(disk: Disk, lba: nat, b: nat, sectors: nat, byte: Byte)
    requires b < sectors * 4096 && (b / 8 < sectors * 512 ==> ByteLies(disk, lba, b / 8, byte))
    ensures BitLies(disk, lba, b, IsBitSet(byte, b % 8))
  {
    hide IsBitSet;
    assert b / 8 < sectors * 512 && b / 8 / 512 == b / 4096 && b / 8 % 512 == b % 4096 / 8;
  }

  lemma NodeAreaLies(disk: Disk, start: nat, dataStart: Word)
    requires IsDisk(disk) && start + NODE_SECTORS <= |disk|
    requires ReadSectors(disk, start, NODE_SECTORS) == RootNodeArea(dataStart)
    ensures IsRootArea(disk, start, dataStart)
  {
    var node := RootNode(dataStart);
    assert node == IdxNode(0, 56, [dataStart, 0, 0, 0, 0, 0, 0, 0, 0, 0, 0, 0], 0);
    ReadBytes(disk, start, NODE_SECTORS);
    NodeBytes(node);
    RootAreaBytes(dataStart);
    hide EncodeNode, ReadSectors, RootNode, RootNodeArea, IsSavedNode, ByteLies;
    FirstSlotLies(disk, start, RootNodeArea(dataStart), EncodeNode(node));
    assert LiesAt(disk, start, node.idx, EncodeNode(node));
  }

  lemma RootAreaBytes(dataStart: Word)
    ensures var (area, bytes) := (RootNodeArea(dataStart), EncodeNode(RootNode(dataStart)));
      forall k: nat :: k < 608 * 512 ==> area[k] == if k < 76 then bytes[k] else 0
  {
    hide EncodeNode, RootNode;
  }

  lemma FirstSlotLies(disk: Disk, start: nat, area: seq<Byte>, bytes: seq<Byte>)
    requires |area| == 608 * 512 && |bytes| == 76
    requires forall k: nat :: k < 608 * 512 ==> area[k] == if k < 76 then bytes[k] else 0
    requires forall k: nat :: k < 608 * 512 ==> ByteLies(disk, start, k, area[k])
    ensures LiesAt(disk, start, 0, bytes)
    ensures forall o: nat :: 76 <= o < 608 * 512 ==> ByteLies(disk, start, o, 0)
  {
    hide ByteLies;
    forall k: nat | k < 76 ensures ByteLies(disk, start, 0 * 76 + k, bytes[k]) {
      assert ByteLies(disk, start, k, area[k]);
    }
    forall k: nat | 76 <= k < 608 * 512 ensures ByteLies(disk, start, k, 0) {
      assert ByteLies(disk, start, k, area[k]);
    }
  }

  lemma FormattedBytes(disk: Disk, sb: SuperBlock, bitLen: nat)
    requires IsDisk(disk) && InOrder(sb, bitLen, disk)
    requires SuperSector(disk, sb.partStart) == EncodeSuper(sb)
    requires LoadImage(disk, sb.partStart)
          == Image(sb, InitialBlockBitmap(sb.blockBitmapSectors, bitLen), InitialNodeBitmap())
    requires ReadSectors(disk, sb.nodesStart, NODE_SECTORS) == RootNodeArea(sb.dataStart)
    requires ReadSectors(disk, sb.dataStart, 1) == RootEntries() + ZeroBytes(SECTOR_SIZE - ROOT_SIZE)
    ensures IsFormatted(disk, sb, bitLen)
  {
    hide ReadSectors, EncodeSuper, LoadImage, RootNodeArea, RootEntries, IsSuper, BitmapAt, IsRootArea, IsRootSector,
      InitialBlockBitmap, InitialNodeBitmap, IsStorable, IsSigned, ByteLies, WordAt, HasPlaces, ZeroBytes;
    SuperBytes(sb);
    SectorLies(disk, sb.partStart + 1);
    SectorLies(disk, sb.dataStart);
    RootBytes();
    LoadedImage(disk, sb.partStart);
    NodeAreaLies(disk, sb.nodesStart, sb.dataStart);
  }

  lemma SectorLies(disk: Disk, lba: nat)
    requires IsDisk(disk) && lba < |disk|
    ensures ReadSectors(disk, lba, 1) == disk[lba]
  {
  }

  /** What mounting loads, from the words and bits on the disk. */
  lemma LoadedImage(disk: Disk, partStart: nat)
    requires IsDisk(disk) && partStart + 1 < |disk|
    ensures var image := LoadImage(disk, partStart);
      && HasPlaces(disk[partStart + 1], image.sb)
      && (IsSigned(SuperSector(disk, partStart)) <==> WordAt(disk[partStart + 1], 0, 0x1122_3344))
      && |image.blockBitmap| == image.sb.blockBitmapSectors * 4096
      && |image.nodeBitmap| == image.sb.nodeBitmapSectors * 4096
      && (image.sb.blockBitmapStart + image.sb.blockBitmapSectors <= |disk| ==>
           BitmapAt(disk, image.sb.blockBitmapStart, image.blockBitmap))
      && (image.sb.nodeBitmapStart + image.sb.nodeBitmapSectors <= |disk| ==>
           BitmapAt(disk, image.sb.nodeBitmapStart, image.nodeBitmap))
  {
    var image := LoadImage(disk, partStart);
    var sb := image.sb;
    SectorLies(disk, partStart + 1);
    SuperFields(SuperSector(disk, partStart));
    hide DecodeSuper, HasPlaces, IsSigned, UnpackBits, ReadSectors, BitmapAt, WordAt, ByteLies;
    if sb.blockBitmapStart + sb.blockBitmapSectors <= |disk| {
      BitmapLies(disk, sb.blockBitmapStart, sb.blockBitmapSectors, image.blockBitmap);
    }
    if sb.nodeBitmapStart + sb.nodeBitmapSectors <= |disk| {
      BitmapLies(disk, sb.nodeBitmapStart, sb.nodeBitmapSectors, image.nodeBitmap);
    }
  }

  /** Writes the super block and the initial contents of all regions. */
  method WriteTo(disk0: Disk, sb: SuperBlock, bitLen: nat) returns (disk: Disk)
    requires IsDisk(disk0) && InOrder(sb, bitLen, disk0)
    ensures IsDisk(disk) && |disk| == |disk0| && IsFormatted(disk, sb, bitLen)
    ensures IsSigned(SuperSector(disk, sb.partStart))
    ensures LoadImage(disk, sb.partStart)
         == Image(sb, InitialBlockBitmap(sb.blockBitmapSectors, bitLen), InitialNodeBitmap())
    ensures ReadSectors(disk, sb.nodesStart, NODE_SECTORS) == RootNodeArea(sb.dataStart)
    ensures ReadSectors(disk, sb.dataStart, 1) == RootEntries() + ZeroBytes(SECTOR_SIZE - ROOT_SIZE)
    ensures forall s :: 0 <= s < |disk0| && !(sb.partStart < s <= sb.dataStart) ==> disk[s] == disk0[s]
  {
    hide EncodeSuper, DecodeSuper, IsSigned, PackBits, UnpackBits, ReadSectors, WriteSectors, RootNodeArea,
      InitialBlockBitmap, InitialNodeBitmap, RootEntries, ZeroBytes, IsStorable, IsFormatted;
    var blockBits, nodeBits := InitialBlockBitmap(sb.blockBitmapSectors, bitLen), InitialNodeBitmap();
    BitmapSectors(blockBits, sb.blockBitmapSectors);
    BitmapSectors(nodeBits, sb.nodeBitmapSectors);
    var disk1 := WriteSectors(disk0, sb.partStart + BOOT_SECTORS, EncodeSuper(sb));
    var disk2 := WriteSectors(disk1, sb.blockBitmapStart, PackBits(blockBits));
    var disk3 := WriteSectors(disk2, sb.nodeBitmapStart, PackBits(nodeBits));
    var disk4 := WriteSectors(disk3, sb.nodesStart, RootNodeArea(sb.dataStart));
    disk := WriteSectors(disk4, sb.dataStart, RootEntries() + ZeroBytes(SECTOR_SIZE - ROOT_SIZE));

    // Each region is written once, and is read back as it was written.
    SuperRoundTrip(sb);
    ReadWritten(disk0, sb.partStart + BOOT_SECTORS, EncodeSuper(sb));
    ReadKept(disk1, disk, sb.partStart + BOOT_SECTORS, SUPER_BLOCK_SECTORS);
    ReadWritten(disk1, sb.blockBitmapStart, PackBits(blockBits));
    ReadKept(disk2, disk, sb.blockBitmapStart, sb.blockBitmapSectors);
    ReadWritten(disk2, sb.nodeBitmapStart, PackBits(nodeBits));
    ReadKept(disk3, disk, sb.nodeBitmapStart, sb.nodeBitmapSectors);
    ReadWritten(disk3, sb.nodesStart, RootNodeArea(sb.dataStart));
    ReadKept(disk4, disk, sb.nodesStart, NODE_SECTORS);
    ReadWritten(disk4, sb.dataStart, RootEntries() + ZeroBytes(SECTOR_SIZE - ROOT_SIZE));
    FormattedBytes(disk, sb, bitLen);
  }

  /** The buffer of a bitmap fills its sectors, and is loaded as it was. */
  lemma BitmapSectors(bits: Bits, sectors: nat)
    requires |bits| == sectors * BITS_PER_SECTOR
    ensures |bits| % 8 == 0 && |PackBits(bits)| == sectors * SECTOR_SIZE
    ensures |PackBits(bits)| % SECTOR_SIZE == 0 && |PackBits(bits)| / SECTOR_SIZE == sectors
    ensures UnpackBits(PackBits(bits)) == bits
  {
    assert |bits| == 8 * (sectors * SECTOR_SIZE);
    UnpackPack(bits);
  }

  /** Slot `idx` of the node area, within the buffer of the whole area. */
  lemma SlotOfArea(disk: Disk, start: nat, idx: nat)
    requires idx < MAX_FILES
    ensures SlotBytes(disk, start, idx) ==
      ReadSectors(disk, start, NODE_SECTORS)[idx * NODE_SIZE..(idx + 1) * NODE_SIZE]
  {
  }
}
