/** Files of a partition: block allocation, appending, reading and deleting. */
module FileParts {
  import opened Wrappers
  import opened BitRuns
  import opened Words
  import opened Sectors
  import opened IndexNodes
  import opened NodeTable
  import opened FileLemmas
  import opened Layout
  import opened DiskImage

  /** User buffers lie below the kernel's base address. */
  const KRNL_BASE := 0xC000_0000

  lemma RootOk(disk: Disk, root: IdxNode, dataStart: Word, bitLen: nat)
    requires root == RootNode(dataStart) && 0 < dataStart && 0 < bitLen
    ensures Owned(disk, root) == [dataStart] && NodeOk(disk, root, dataStart, dataStart + bitLen)
  {
    assert Owned(disk, root) == [dataStart];
  }

  lemma RootAccounted(disk: Disk, root: IdxNode, bits: Bits, dataStart: Word, bitLen: nat)
    requires root == RootNode(dataStart)
    requires 0 < dataStart && 0 < bitLen <= |bits|
    requires forall b :: 0 <= b < |bits| ==> (bits[b] <==> b == 0 || b >= bitLen)
    ensures Accounted(disk, map[0 := root], bits, dataStart, bitLen)
    ensures Owned(disk, root) == [dataStart]
  {
    RootOk(disk, root, dataStart, bitLen);
    hide Owned, NodeOk, Balanced, RootNode;
    assert (set x | x in Owned(disk, root)) == {dataStart};
    var owners := Owners(disk, map[0 := root]);
    assert owners.Keys == {0} && owners[0] == {dataStart};
    assert owners == map[0 := {dataStart}];
    OneOwner(bits, dataStart, bitLen);
  }

  lemma OneOwner(bits: Bits, dataStart: Word, bitLen: nat)
    requires 0 < bitLen <= |bits|
    requires forall b :: 0 <= b < |bits| ==> (bits[b] <==> b == 0 || b >= bitLen)
    ensures Balanced(map[0 := {dataStart}], bits, dataStart, bitLen)
  {
    var owners: map<nat, set<Word>> := map[0 := {dataStart}];
    forall x ensures HasOwner(owners, x) <==> x == dataStart {
      assert x == dataStart ==> 0 in owners && x in owners[0];
    }
  }

  lemma SlicesJoined(s: seq<Byte>, a: nat, b: nat, c: nat)
    requires a <= b <= c <= |s|
    ensures s[a..c] == s[a..b] + s[b..c]
  {
  }

  /** The nodes that a bitmap of a node area marks. */
  function LiveNodes(disk: Disk, nodesStart: nat, nodeBitmap: Bits): Nodes {
    map i | 0 <= i < |nodeBitmap| && nodeBitmap[i] :: StoredNode(disk, nodesStart, i)
  }

  /** The root directory is the one live node of a formatted partition. */
  lemma RootLoaded(disk: Disk, nodesStart: nat, dataStart: Word)
    requires ReadSectors(disk, nodesStart, NODE_SECTORS) == RootNodeArea(dataStart)
    ensures LiveNodes(disk, nodesStart, InitialNodeBitmap()) == map[0 := RootNode(dataStart)]
    ensures StoredNode(disk, nodesStart, 0) == RootNode(dataStart)
  {
    hide ReadSectors, EncodeNode, DecodeNode, SlotBytes, RootNode;
    SlotOfArea(disk, nodesStart, 0);
    assert RootNodeArea(dataStart)[0 * NODE_SIZE..(0 + 1) * NODE_SIZE] == EncodeNode(RootNode(dataStart));
    NodeRoundTrip(RootNode(dataStart));
  }

  lemma RootContent(disk: Disk, dataStart: Word)
    requires IsDisk(disk) && dataStart < |disk|
    requires ReadSectors(disk, dataStart, 1) == RootEntries() + ZeroBytes(SECTOR_SIZE - ROOT_SIZE)
    ensures Content(disk, RootNode(dataStart)) == RootEntries()
  {
    hide RootEntries, TableWords;
    var (content, sector) := (Content(disk, RootNode(dataStart)), ReadSectors(disk, dataStart, 1));
    assert Lbas(disk, RootNode(dataStart))[0] == dataStart;
    hide Lbas;
    forall k | 0 <= k < ROOT_SIZE ensures content[k] == RootEntries()[k] {
      assert sector[k] == RootEntries()[k];
      assert k / SECTOR_SIZE == 0 && k % SECTOR_SIZE == k;
    }
  }

  lemma FormatPlaces(partStart: Word, partSectors: Word)
    requires LargeEnough(partSectors) && partStart + partSectors <= WORD_LIMIT
    ensures FormatPart(partStart, partSectors).partStart == partStart && IsStorable(FormatPart(partStart, partSectors))
  {
    RegionsInOrder(partStart, partSectors);
  }

  /** How a call ends: `AssertFailed` is a failed `dbg::Assert`, which stops the kernel. */
  datatype WriteResult = Written(size: nat) | WriteAssertFailed
  datatype ReadResult = Read(bytes: seq<Byte>) | ReadAssertFailed

  datatype SeekOrigin = Begin | Curr | End

  /** An open file: the node it refers to and its access offset. */
  class File {
    var nodeIdx: nat
    var pos: Word

    constructor (nodeIdx: nat)
      ensures this.nodeIdx == nodeIdx && pos == 0
    {
      this.nodeIdx := nodeIdx;
      pos := 0;
    }
  }

  class FilePart {
    const nodesStart: nat
    const dataStart: nat
    /** The number of blocks that the block bitmap manages; what follows in it is padding. */
    ghost const bitLen: nat
    var disk: Disk
    var blockBitmap: Bits
    var nodeBitmap: Bits
    /** The live index nodes, as they are held in memory. */
    var nodes: Nodes

    /** The regions of the partition and the padding at the end of the block bitmap. */
    ghost predicate Layout()
      reads this
    {
      && IsDisk(disk)
      && 0 < nodesStart && nodesStart + NODE_SECTORS <= dataStart
      && dataStart + bitLen <= |disk|
      && bitLen <= |blockBitmap|
      && forall b :: bitLen <= b < |blockBitmap| ==> blockBitmap[b]
    }

    ghost predicate Valid()
      reads this
    {
      && Layout()
      && Accounted(disk, nodes, blockBitmap, dataStart, bitLen)
      && |nodeBitmap| == MAX_FILES
      && (forall i :: 0 <= i < MAX_FILES ==> (nodeBitmap[i] <==> i in nodes))
      && (forall i :: i in nodes ==> i < MAX_FILES && nodes[i].idx == i)
      && NodesStored(disk, nodesStart, nodes)
    }

    /** Loads the super block and the bitmaps of a partition. */
    constructor Mount(disk: Disk, partStart: nat, ghost bitLen: nat)
      ensures this.disk == disk && this.bitLen == bitLen
      ensures var image := LoadImage(disk, partStart);
        && nodesStart == image.sb.nodesStart && dataStart == image.sb.dataStart
        && blockBitmap == image.blockBitmap && nodeBitmap == image.nodeBitmap
        && nodes == LiveNodes(disk, image.sb.nodesStart, image.nodeBitmap)
      ensures forall i :: i in nodes <==> 0 <= i < |nodeBitmap| && nodeBitmap[i]
      ensures forall i :: i in nodes ==> nodes[i] == StoredNode(disk, nodesStart, i)
    {
      hide LoadImage, StoredNode;
      var image := LoadImage(disk, partStart);
      nodesStart, dataStart, this.bitLen, this.disk := image.sb.nodesStart, image.sb.dataStart, bitLen, disk;
      blockBitmap, nodeBitmap := image.blockBitmap, image.nodeBitmap;
      nodes := LiveNodes(disk, image.sb.nodesStart, image.nodeBitmap);
    }

    /** Formats a partition of `disk0` and mounts it; only the root directory is live. */
    static method Format(disk0: Disk, partStart: Word, partSectors: Word) returns (part: FilePart)
      requires IsDisk(disk0) && LargeEnough(partSectors) && partStart + partSectors <= |disk0|
      ensures fresh(part) && part.Valid() && |part.disk| == |disk0|
      ensures part.dataStart < WORD_LIMIT && part.nodes == map[0 := RootNode(part.dataStart)]
      ensures partStart < part.nodesStart && part.dataStart + part.bitLen <= partStart + partSectors
      ensures Owned(part.disk, part.nodes[0]) == [part.dataStart]
      ensures Content(part.disk, part.nodes[0]) == RootEntries()
      ensures IsFormatted(part.disk, FormatPart(partStart, partSectors), part.bitLen)
      ensures IsSigned(SuperSector(part.disk, partStart))
      ensures LoadImage(part.disk, partStart) ==
        Image(FormatPart(partStart, partSectors), part.blockBitmap, part.nodeBitmap)
      ensures forall s :: 0 <= s < |disk0| && !(partStart < s <= part.dataStart) ==> part.disk[s] == disk0[s]
    {
      hide TableWords, Accounted, Owned, RootNode, FormatPart, BlockCount, InitialBlockBitmap, InitialNodeBitmap,
        HasOwner, Content, RootEntries, LoadImage, RootNodeArea, ReadSectors, SuperSector, IsSigned, StoredNode,
        IsFormatted;
      RegionsInOrder(partStart, partSectors);
      var sb := FormatPart(partStart, partSectors);
      var bitLen := BlockCount(partSectors);
      FormatPlaces(partStart, partSectors);
      var disk := WriteTo(disk0, sb, bitLen);
      part := new FilePart.Mount(disk, partStart, bitLen);
      RootLoaded(disk, sb.nodesStart, sb.dataStart);
      RootContent(disk, sb.dataStart);
      RootAccounted(disk, RootNode(sb.dataStart), part.blockBitmap, sb.dataStart, bitLen);
    }

    method AllocBlock() returns (r: Option<Word>)
      requires Layout()
      modifies this`blockBitmap
      ensures Layout()
      ensures r.Some? <==> CountFree(old(blockBitmap)) > 0
      ensures match r
        case Some(lba) =>
          && dataStart <= lba < dataStart + bitLen
          && FindRun(old(blockBitmap), 1) == Some(lba - dataStart) && !old(blockBitmap)[lba - dataStart]
          && blockBitmap == old(blockBitmap)[lba - dataStart := true]
          && CountFree(blockBitmap) == CountFree(old(blockBitmap)) - 1
        case None => blockBitmap == old(blockBitmap)
    {
      FindOne(blockBitmap);
      var idx := FindRun(blockBitmap, 1);
      match idx
      case Some(b) =>
        CountFreeMark(blockBitmap, b, 1, true);
        assert Mark(blockBitmap, b, 1, true) == blockBitmap[b := true];
        blockBitmap := Mark(blockBitmap, b, 1, true);
        r := Some(b + dataStart);
      case None =>
        r := None;
    }

    method FreeBlock(lba: nat)
      requires Layout() && dataStart <= lba < dataStart + bitLen
      modifies this`blockBitmap
      ensures Layout()
      ensures blockBitmap == old(blockBitmap)[lba - dataStart := false]
    {
      assert Mark(blockBitmap, lba - dataStart, 1, false) == blockBitmap[lba - dataStart := false];
      blockBitmap := Mark(blockBitmap, lba - dataStart, 1, false);
    }

    /** Sets the address of one direct block of a node. */
    method SetDirectLba(id: nat, i: nat, lba: Word)
      requires id in nodes && i < |nodes[id].direct|
      modifies this`nodes
      ensures nodes == old(nodes)[id := old(nodes)[id].(direct := old(nodes)[id].direct[i := lba])]
    {
      nodes := nodes[id := nodes[id].(direct := nodes[id].direct[i := lba])];
    }

    /** The block that a turn of the undoing loop gives back. */
    lemma ReturnFirst(bits: Bits, cur: Bits, dataStart: nat, lbas: seq<Word>, i: nat, m: nat)
      requires i < m <= |lbas| && Fresh(bits, dataStart, lbas[i..m]) && Taken(bits, cur, dataStart, lbas[i..m])
      ensures dataStart <= lbas[i] < dataStart + |bits| && !bits[lbas[i] - dataStart]
      ensures Fresh(bits, dataStart, lbas[i + 1..m])
      ensures Taken(bits, cur[lbas[i] - dataStart := false], dataStart, lbas[i + 1..m])
    {
      assert lbas[i..m][0] == lbas[i] && lbas[i..m][1..] == lbas[i + 1..m] && lbas[i] in lbas[i..m];
      ReturnOne(bits, cur, dataStart, lbas[i..m]);
    }

    lemma WithoutFirst(direct: seq<Word>, lbas: seq<Word>, i: nat, m: nat)
      requires |direct| == DIRECT_COUNT && |lbas| == MAX_SECTORS && i < m
      requires i < DIRECT_COUNT ==> direct[i] == 0
      ensures WithDirect(direct, lbas, i + 1, m) ==
        if i < DIRECT_COUNT then WithDirect(direct, lbas, i, m)[i := 0] else WithDirect(direct, lbas, i, m)
      ensures i < DIRECT_COUNT ==> WithDirect(direct, lbas, i, m)[i] == lbas[i]
    {
    }

    /** Undoes an allocation that stopped at `m`: frees the blocks again and clears their addresses. */
    method Rollback(id: nat, lbas: seq<Word>, n0: nat, n1: nat, ghost m: nat, ghost bits0: Bits, ghost nodes0: Nodes)
      requires Layout() && bitLen <= |bits0| && forall b :: bitLen <= b < |bits0| ==> bits0[b]
      requires n0 <= m <= n1 <= |lbas| == MAX_SECTORS && (m == n1 || lbas[m] == 0) && dataStart > 0
      requires Fresh(bits0, dataStart, lbas[n0..m]) && Taken(bits0, blockBitmap, dataStart, lbas[n0..m])
      requires id in nodes0 && |nodes0[id].direct| == DIRECT_COUNT
      requires forall i :: n0 <= i < n1 && i < DIRECT_COUNT ==> nodes0[id].direct[i] == 0
      requires nodes == nodes0[id := nodes0[id].(direct := WithDirect(nodes0[id].direct, lbas, n0, m))]
      modifies this`blockBitmap, this`nodes
      ensures Layout() && blockBitmap == bits0 && nodes == nodes0
    {
      hide Fresh, Taken;
      var i := n0;
      while i != n1
        invariant n0 <= i <= m && Layout()
        invariant Fresh(bits0, dataStart, lbas[i..m]) && Taken(bits0, blockBitmap, dataStart, lbas[i..m])
        invariant nodes == nodes0[id := nodes0[id].(direct := WithDirect(nodes0[id].direct, lbas, i, m))]
        decreases n1 - i
      {
        if i < m {
          ReturnFirst(bits0, blockBitmap, dataStart, lbas, i, m);
          WithoutFirst(nodes0[id].direct, lbas, i, m);
        }
        if lbas[i] != 0 {
          if i < DIRECT_COUNT {
            assert nodes[id].direct[i] != 0;
            SetDirectLba(id, i, 0);
          }
          FreeBlock(lbas[i]);
        } else {
          break;
        }
        i := i + 1;
      }
      assert WithDirect(nodes0[id].direct, lbas, m, m) == nodes0[id].direct;
      assert blockBitmap == bits0 by {
        NothingTaken(bits0, blockBitmap, dataStart, lbas, m);
      }
    }

    lemma NothingTaken(bits: Bits, cur: Bits, dataStart: nat, lbas: seq<Word>, m: nat)
      requires m <= |lbas| && Taken(bits, cur, dataStart, lbas[m..m])
      ensures cur == bits
    {
    }

    /** Allocates block `i` of node `id`. */
    method ReserveOne(id: nat, lbas0: seq<Word>, ghost n0: nat, i: nat, ghost bits0: Bits, ghost nodes0: Nodes)
      returns (ok: bool, lbas: seq<Word>)
      requires Layout() && Reserving(blockBitmap, nodes, dataStart, id, lbas0, n0, i, bits0, nodes0)
      requires i < MAX_SECTORS && lbas0[i] == 0
      requires i < DIRECT_COUNT ==> nodes0[id].direct[i] == 0
      modifies this`blockBitmap, this`nodes
      ensures Layout()
      ensures !ok ==> lbas == lbas0 && CountFree(bits0) == i - n0
      ensures !ok ==> Reserving(blockBitmap, nodes, dataStart, id, lbas, n0, i, bits0, nodes0)
      ensures ok ==> |lbas| == MAX_SECTORS && lbas == lbas0[i := lbas[i]]
      ensures ok ==> Reserving(blockBitmap, nodes, dataStart, id, lbas, n0, i + 1, bits0, nodes0)
    {
      ghost var cur := blockBitmap;
      lbas := lbas0;
      var lba := AllocBlock();
      if lba.None? {
        return false, lbas;
      }
      ReservingStep(cur, nodes, dataStart, id, lbas, n0, i, bits0, nodes0, lba.value);
      if i < DIRECT_COUNT {
        assert nodes[id].direct[i] == 0;
        SetDirectLba(id, i, lba.value);
      }
      assert lbas[i] == 0;
      return true, lbas[i := lba.value];
    }

    /** Allocates the blocks `n0`, ..., `n1 - 1` of a node, all of them or none. */
    method Reserve(id: nat, oldLbas: seq<Word>, n0: nat, n1: nat) returns (ok: bool, lbas: seq<Word>)
      requires Layout() && id in nodes && |nodes[id].direct| == DIRECT_COUNT
      requires n0 <= n1 <= |oldLbas| == MAX_SECTORS
      requires forall i :: n0 <= i < n1 ==> oldLbas[i] == 0
      requires forall i :: n0 <= i < n1 && i < DIRECT_COUNT ==> nodes[id].direct[i] == 0
      modifies this`blockBitmap, this`nodes
      ensures Layout()
      ensures ok <==> CountFree(old(blockBitmap)) >= n1 - n0
      ensures !ok ==> blockBitmap == old(blockBitmap) && nodes == old(nodes)
      ensures ok ==>
        && |lbas| == MAX_SECTORS && (forall k :: 0 <= k < MAX_SECTORS && !(n0 <= k < n1) ==> lbas[k] == oldLbas[k])
        && Reserving(blockBitmap, nodes, dataStart, id, lbas, n0, n1, old(blockBitmap), old(nodes))
    {
      ghost var bits0, nodes0 := blockBitmap, nodes;
      lbas, ok := oldLbas, true;
      var i := n0;
      assert WithDirect(nodes[id].direct, lbas, n0, n0) == nodes[id].direct;
      while i != n1
        invariant n0 <= i <= n1 && Layout() && |lbas| == MAX_SECTORS && ok
        invariant forall k :: 0 <= k < MAX_SECTORS && !(n0 <= k < i) ==> lbas[k] == oldLbas[k]
        invariant Reserving(blockBitmap, nodes, dataStart, id, lbas, n0, i, bits0, nodes0)
        decreases n1 - i
      {
        ok, lbas := ReserveOne(id, lbas, n0, i, bits0, nodes0);
        if !ok {
          Rollback(id, lbas, n0, n1, i, bits0, nodes0);
          return;
        }
        i := i + 1;
      }
    }

    /**
     What collecting the blocks for an append leaves: node `id` has `n1` blocks, the ones in
     `s` newly allocated, its earlier blocks kept, and `lbas` knows the blocks to write to.
     */
    twostate predicate Collected(id: nat, n0: nat, n1: nat, lbas: seq<Word>, s: seq<Word>)
      requires id in old(nodes)
      reads this
    {
      && Fresh(old(blockBitmap), dataStart, s) && Taken(old(blockBitmap), blockBitmap, dataStart, s)
      && id in nodes && nodes == old(nodes)[id := nodes[id]]
      && Grown(old(disk), old(nodes)[id], disk, nodes[id], n0, n1, lbas, s, dataStart, dataStart + bitLen)
    }

    /** The local address list with the last block, when that block is direct and not full. */
    method LastDirect(id: nat) returns (lbas: seq<Word>)
      requires Valid() && id in nodes && SectorsOf(nodes[id].size) <= DIRECT_COUNT
      ensures |lbas| == MAX_SECTORS
      ensures forall i :: 0 <= i < MAX_SECTORS ==>
        lbas[i] ==
          if nodes[id].size / SECTOR_SIZE == i < SectorsOf(nodes[id].size) then Lbas(disk, nodes[id])[i] else 0
    {
      hide NodesStored;
      lbas := Zeros(MAX_SECTORS);
      if nodes[id].size % SECTOR_SIZE != 0 {
        var last := nodes[id].size / SECTOR_SIZE;
        lbas := lbas[last := nodes[id].direct[last]];
        assert Lbas(disk, nodes[id])[last] != 0;
        assert lbas[last] != 0;
      }
    }

    /** The local address list with the addresses of the indirect block table. */
    method LoadTable(id: nat) returns (lbas: seq<Word>)
      requires Valid() && id in nodes && SectorsOf(nodes[id].size) > DIRECT_COUNT
      ensures |lbas| == MAX_SECTORS
      ensures forall i :: DIRECT_COUNT <= i < MAX_SECTORS ==> lbas[i] == Lbas(disk, nodes[id])[i]
      ensures TableLies(disk, nodes[id].indirect, lbas)
    {
      hide NodesStored;
      var tab := nodes[id].indirect;
      assert tab != 0;
      assert tab in Owned(disk, nodes[id]);
      lbas := Zeros(DIRECT_COUNT) + DecodeWords(disk[tab]);
      DecodedTable(disk, tab, lbas);
    }

    /** The new data fits in the last block. */
    method CollectLast(id: nat, n: nat) returns (lbas: seq<Word>)
      requires Valid() && id in nodes && n == SectorsOf(nodes[id].size)
      requires nodes[id].size % SECTOR_SIZE != 0 || n > DIRECT_COUNT
      ensures Collected(id, n, n, lbas, [])
    {
      hide NodesStored, TableWords, Accounted, Blocks;
      AccountedNode(disk, nodes, blockBitmap, dataStart, bitLen, id);
      if n <= DIRECT_COUNT {
        lbas := LastDirect(id);
      } else {
        lbas := LoadTable(id);
      }
    }

    /** The new data needs more direct blocks. */
    method CollectDirect(id: nat, n0: nat, n1: nat) returns (ok: bool, lbas: seq<Word>, ghost s: seq<Word>)
      requires Valid() && id in nodes && n0 == SectorsOf(nodes[id].size) && n0 < n1 <= DIRECT_COUNT
      modifies this`blockBitmap, this`nodes
      ensures Layout()
      ensures ok <==> CountFree(old(blockBitmap)) >= BlocksNeeded(n0, n1)
      ensures !ok ==> blockBitmap == old(blockBitmap) && nodes == old(nodes)
      ensures ok ==> Collected(id, n0, n1, lbas, s)
    {
      hide NodesStored, TableWords;
      lbas := LastDirect(id);
      ghost var node := nodes[id];
      assert forall i :: n0 <= i < n1 ==> Lbas(disk, node)[i] == node.direct[i];
      ok, lbas := Reserve(id, lbas, n0, n1);
      s := [];
      if ok {
        s := lbas[n0..n1];
        TakenBlocks(disk, old(nodes), old(blockBitmap), dataStart, bitLen, s, id);
        GrowDirect(disk, node, n0, n1, lbas, dataStart, dataStart + bitLen);
      }
    }

    method WriteSector(lba: nat, sector: seq<Byte>)
      requires Layout() && lba < |disk| && |sector| == SECTOR_SIZE
      modifies this`disk
      ensures Layout() && disk == old(disk)[lba := sector]
    {
      disk := disk[lba := sector];
    }

    method SetIndirectTabLba(id: nat, lba: Word)
      requires id in nodes
      modifies this`nodes
      ensures nodes == old(nodes)[id := old(nodes)[id].(indirect := lba)]
    {
      nodes := nodes[id := nodes[id].(indirect := lba)];
    }

    /** Sector `tab` has the addresses of the indirect blocks, one word each. */
    static ghost predicate TableLies(disk: Disk, tab: Word, lbas: seq<Word>) {
      && 0 < tab < |disk| && |lbas| == MAX_SECTORS && |disk[tab]| == 512
      && forall i: nat :: 12 <= i < 140 ==> WordAt(disk[tab], 4 * (i - 12), lbas[i])
    }

    static lemma EncodedTable(disk: Disk, tab: Word, lbas: seq<Word>)
      requires 0 < tab < |disk| && |lbas| == MAX_SECTORS && disk[tab] == EncodeWords(lbas[DIRECT_COUNT..])
      ensures TableLies(disk, tab, lbas)
    {
      EncodedWords(lbas[DIRECT_COUNT..]);
      hide EncodeWords, WordAt;
      forall i: nat | 12 <= i < 140 ensures WordAt(disk[tab], 4 * (i - 12), lbas[i]) {
        assert lbas[DIRECT_COUNT..][i - 12] == lbas[i];
      }
    }

    static lemma DecodedTable(disk: Disk, tab: Word, lbas: seq<Word>)
      requires 0 < tab < |disk| && |disk[tab]| == SECTOR_SIZE && lbas == Zeros(DIRECT_COUNT) + DecodeWords(disk[tab])
      ensures TableLies(disk, tab, lbas)
    {
      DecodedWords(disk[tab]);
      hide DecodeWords, WordAt;
      forall i: nat | 12 <= i < 140 ensures WordAt(disk[tab], 4 * (i - 12), lbas[i]) {
        assert lbas[i] == DecodeWords(disk[tab])[i - 12];
      }
    }

    /** The new data needs the first indirect blocks, and with them the table. */
    method CollectMixed(id: nat, n0: nat, n1: nat) returns (ok: bool, lbas: seq<Word>, ghost s: seq<Word>)
      requires Valid() && id in nodes && n0 == SectorsOf(nodes[id].size) && n0 <= DIRECT_COUNT < n1 <= MAX_SECTORS
      modifies this`disk, this`blockBitmap, this`nodes
      ensures Layout()
      ensures ok <==> CountFree(old(blockBitmap)) >= BlocksNeeded(n0, n1)
      ensures !ok ==> disk == old(disk) && blockBitmap == old(blockBitmap) && nodes == old(nodes)
      ensures ok ==> Collected(id, n0, n1, lbas, s)
      ensures ok ==> TableLies(disk, nodes[id].indirect, lbas)
    {
      hide NodesStored, TableWords;
      ghost var bits0, node := blockBitmap, nodes[id];
      lbas := LastDirect(id);
      assert forall i :: n0 <= i < DIRECT_COUNT ==> Lbas(disk, node)[i] == node.direct[i];
      assert nodes[id].indirect == 0;
      s := [];
      var tab := AllocBlock();
      if tab.None? {
        return false, lbas, s;
      }
      ok, lbas, s := FillTable(id, n0, n1, lbas, tab.value, bits0);
    }

    /** Allocates the blocks behind a new table and stores their addresses in it. */
    method FillTable(id: nat, n0: nat, n1: nat, lbas0: seq<Word>, tab: Word, ghost bits0: Bits)
      returns (ok: bool, lbas: seq<Word>, ghost s: seq<Word>)
      requires Layout() && bitLen <= |bits0| && forall b :: bitLen <= b < |bits0| ==> bits0[b]
      requires Accounted(disk, nodes, bits0, dataStart, bitLen) && id in nodes && n0 == SectorsOf(nodes[id].size)
      requires n0 <= DIRECT_COUNT < n1 <= MAX_SECTORS == |lbas0|
      requires dataStart <= tab < dataStart + bitLen && !bits0[tab - dataStart]
      requires blockBitmap == bits0[tab - dataStart := true] && CountFree(blockBitmap) == CountFree(bits0) - 1
      requires nodes[id].indirect == 0 && |nodes[id].direct| == DIRECT_COUNT
      requires forall i :: n0 <= i < DIRECT_COUNT ==> nodes[id].direct[i] == 0
      requires forall i :: nodes[id].size / SECTOR_SIZE <= i < n0 ==> lbas0[i] == Lbas(disk, nodes[id])[i]
      requires forall i :: n0 <= i < MAX_SECTORS ==> lbas0[i] == 0
      modifies this`disk, this`blockBitmap, this`nodes
      ensures Layout()
      ensures ok <==> CountFree(bits0) >= BlocksNeeded(n0, n1)
      ensures !ok ==> disk == old(disk) && blockBitmap == bits0 && nodes == old(nodes)
      ensures ok ==>
        && Fresh(bits0, dataStart, s) && Taken(bits0, blockBitmap, dataStart, s)
        && id in nodes && nodes == old(nodes)[id := nodes[id]]
        && Grown(old(disk), old(nodes)[id], disk, nodes[id], n0, n1, lbas, s, dataStart, dataStart + bitLen)
      ensures ok ==> nodes[id].indirect == tab && TableLies(disk, tab, lbas)
    {
      hide NodesStored, TableWords, Accounted, Lbas, EncodeWords, Uses, NodeUses, Fresh, Taken, Reserving, TableLies;
      SetIndirectTabLba(id, tab);
      ghost var bits1, nodes1 := blockBitmap, nodes;
      ok, lbas := Reserve(id, lbas0, n0, n1);
      if ok {
        s := [tab] + lbas[n0..n1];
        WriteSector(tab, EncodeWords(lbas[DIRECT_COUNT..]));
        EncodedTable(disk, tab, lbas);
        TableAndBlocks(old(disk), old(nodes), bits0, bits1, blockBitmap, dataStart, bitLen, id, n0, n1, lbas, tab);
        assert Grown(old(disk), old(nodes)[id], disk, nodes[id], n0, n1, lbas, s, dataStart, dataStart + bitLen);
      } else {
        s := [];
        assert nodes[id].indirect != 0;
        SetIndirectTabLba(id, 0);
        FreeBlock(tab);
        assert nodes == old(nodes);
      }
    }

    /** The new data needs more indirect blocks. */
    method CollectIndirect(id: nat, n0: nat, n1: nat) returns (ok: bool, lbas: seq<Word>, ghost s: seq<Word>)
      requires Valid() && id in nodes && n0 == SectorsOf(nodes[id].size) && DIRECT_COUNT < n0 < n1 <= MAX_SECTORS
      modifies this`disk, this`blockBitmap, this`nodes
      ensures Layout()
      ensures ok <==> CountFree(old(blockBitmap)) >= BlocksNeeded(n0, n1)
      ensures !ok ==> disk == old(disk) && blockBitmap == old(blockBitmap) && nodes == old(nodes)
      ensures ok ==> Collected(id, n0, n1, lbas, s)
      ensures ok ==> TableLies(disk, nodes[id].indirect, lbas)
    {
      hide NodesStored, TableWords;
      ghost var node := nodes[id];
      lbas := LoadTable(id);
      ok, lbas := Reserve(id, lbas, n0, n1);
      s := [];
      if ok {
        s := lbas[n0..n1];
        var tab := nodes[id].indirect;
        WriteSector(tab, EncodeWords(lbas[DIRECT_COUNT..]));
        TakenBlocks(old(disk), old(nodes), old(blockBitmap), dataStart, bitLen, s, id);
        EncodedTable(disk, tab, lbas);
        assert [] + s == s;
        assert tab in Owned(old(disk), node);
        GrowWithTable(old(disk), node, n0, n1, lbas, tab, [], dataStart, dataStart + bitLen);
      }
    }

    /** Collects the blocks that growing node `id` from `n0` to `n1` blocks will write to. */
    method CollectBlocks(id: nat, n0: nat, n1: nat) returns (ok: bool, lbas: seq<Word>, ghost s: seq<Word>)
      requires Valid() && id in nodes && n0 == SectorsOf(nodes[id].size) && n0 <= n1 <= MAX_SECTORS
      requires n0 == n1 ==> nodes[id].size % SECTOR_SIZE != 0 || n1 > DIRECT_COUNT
      modifies this`disk, this`blockBitmap, this`nodes
      ensures Layout()
      ensures ok <==> CountFree(old(blockBitmap)) >= BlocksNeeded(n0, n1)
      ensures !ok ==> disk == old(disk) && blockBitmap == old(blockBitmap) && nodes == old(nodes)
      ensures ok ==> Collected(id, n0, n1, lbas, s)
    {
      hide NodesStored, TableWords, Accounted;
      if n0 == n1 {
        lbas := CollectLast(id, n0);
        ok, s := true, [];
      } else if n1 <= DIRECT_COUNT {
        ok, lbas, s := CollectDirect(id, n0, n1);
      } else if n0 <= DIRECT_COUNT {
        ok, lbas, s := CollectMixed(id, n0, n1);
      } else {
        ok, lbas, s := CollectIndirect(id, n0, n1);
      }
    }

    /** Writes `data` behind the node's content, one sector at a time. */
    method WriteData(file: File, id: nat, lbas: seq<Word>, n1: nat, data: seq<Byte>)
      requires Layout() && id in nodes && NodeUses(disk, nodes[id], n1, dataStart, dataStart + bitLen)
      requires nodes[id].size + |data| <= MAX_FILE_SIZE && SectorsOf(nodes[id].size + |data|) == n1
      requires |lbas| == MAX_SECTORS
      requires forall i :: nodes[id].size / SECTOR_SIZE <= i < n1 ==> lbas[i] == Lbas(disk, nodes[id])[i]
      modifies this`disk, this`nodes, file`pos
      ensures Layout() && |disk| == |old(disk)|
      ensures nodes == old(nodes)[id := old(nodes)[id].(size := old(nodes)[id].size + |data|)]
      ensures forall x :: 0 <= x < |disk| && x !in Lbas(old(disk), old(nodes)[id])[..n1] ==> disk[x] == old(disk)[x]
      ensures WrittenSoFar(old(disk), disk, Lbas(old(disk), old(nodes)[id]), old(nodes)[id].size, data, |data|)
      ensures file.pos == (nodes[id].size - 1) % WORD_LIMIT
    {
      hide NodesStored, TableWords;
      ghost var disk0, nodes0, l := disk, nodes, Lbas(disk, nodes[id]);
      DataBlocksDistinct(disk, nodes[id], n1, dataStart, dataStart + bitLen);
      WrittenNone(disk, l, nodes[id].size, data);
      hide WrittenSoFar, ByteAt, NodeUses, Uses, Lbas, NoDup, InRange;
      file.pos := (nodes[id].size - 1) % WORD_LIMIT;
      var isFirstWrite, written := true, 0;
      while written < |data|
        invariant written <= |data| && Layout()
        invariant Writing(disk0, nodes0, id, l, n1, data, written)
        invariant isFirstWrite ==> written == 0
        invariant !isFirstWrite && written < |data| ==> nodes[id].size % SECTOR_SIZE == 0
        invariant file.pos == (nodes[id].size - 1) % WORD_LIMIT
      {
        var chunkSize := WriteStep(file, id, lbas, data, written, isFirstWrite, disk0, nodes0, l, n1);
        isFirstWrite := false;
        written := written + chunkSize;
      }
    }

    /** The first `written` bytes of `data` have been appended to node `id`. */
    ghost predicate Writing(disk0: Disk, nodes0: Nodes, id: nat, l: seq<Word>, n1: nat, data: seq<Byte>, written: nat)
      requires id in nodes0 && written <= |data| && n1 <= |l| && nodes0[id].size + |data| <= MAX_FILE_SIZE
      reads this
    {
      && |disk| == |disk0|
      && nodes == nodes0[id := nodes0[id].(size := nodes0[id].size + written)]
      && (forall x :: 0 <= x < |disk| && x !in l[..n1] ==> disk[x] == disk0[x])
      && WrittenSoFar(disk0, disk, l, nodes0[id].size, data, written)
    }

    /** One turn of the write loop. */
    method WriteStep(file: File, id: nat, lbas: seq<Word>, data: seq<Byte>, written: nat, isFirstWrite: bool,
                     ghost disk0: Disk, ghost nodes0: Nodes, ghost l: seq<Word>, ghost n1: nat)
      returns (chunkSize: nat)
      requires Layout() && id in nodes0 && written < |data| && |lbas| == MAX_SECTORS
      requires nodes0[id].size + |data| <= MAX_FILE_SIZE && SectorsOf(nodes0[id].size + |data|) == n1 <= |l|
      requires NoDup(l[..n1]) && InRange(l[..n1], dataStart, dataStart + bitLen)
      requires forall i :: nodes0[id].size / SECTOR_SIZE <= i < n1 && i < MAX_SECTORS ==> lbas[i] == l[i]
      requires Writing(disk0, nodes0, id, l, n1, data, written)
      requires if isFirstWrite then written == 0 else nodes[id].size % SECTOR_SIZE == 0
      requires file.pos == (nodes[id].size - 1) % WORD_LIMIT
      modifies this`disk, this`nodes, file`pos
      ensures Layout() && 0 < chunkSize <= |data| - written
      ensures Writing(disk0, nodes0, id, l, n1, data, written + chunkSize)
      ensures written + chunkSize < |data| ==> nodes[id].size % SECTOR_SIZE == 0
      ensures file.pos == (nodes[id].size - 1) % WORD_LIMIT
    {
      hide WrittenSoFar, ByteAt, NoDup, InRange;
      ghost var before := disk;
      ghost var size: int := nodes[id].size;
      chunkSize := WriteChunk(id, lbas, data, written, isFirstWrite, l, n1);
      WrittenStep(disk0, before, disk, l, nodes0[id].size, data, written, chunkSize);
      OffsetStep(size - 1, chunkSize);
      file.pos := (file.pos + chunkSize) % WORD_LIMIT;
      nodes := nodes[id := nodes[id].(size := nodes[id].size + chunkSize)];
    }

    /** A chunk stays in its sector, and fills it when it is not the last. */
    lemma ChunkFits(size: nat, left: nat, chunkSize: nat)
      requires 0 < left && chunkSize == var room := SECTOR_SIZE - size % SECTOR_SIZE; if left < room then left else room
      ensures 0 < chunkSize <= left && size % SECTOR_SIZE + chunkSize <= SECTOR_SIZE
      ensures chunkSize < left ==> (size + chunkSize) % SECTOR_SIZE == 0
    {
    }

    /** Writes the part of `data` that fits in the sector at the end of the node's content. */
    method WriteChunk(id: nat, lbas: seq<Word>, data: seq<Byte>, written: nat, isFirstWrite: bool, ghost l: seq<Word>,
                      ghost n1: nat)
      returns (chunkSize: nat)
      requires Layout() && id in nodes && written < |data| && |lbas| == MAX_SECTORS
      requires n1 <= |l| && NoDup(l[..n1]) && InRange(l[..n1], dataStart, dataStart + bitLen)
      requires nodes[id].size / SECTOR_SIZE < n1 <= MAX_SECTORS
      requires lbas[nodes[id].size / SECTOR_SIZE] == l[nodes[id].size / SECTOR_SIZE]
      requires isFirstWrite || nodes[id].size % SECTOR_SIZE == 0
      modifies this`disk
      ensures Layout() && |disk| == |old(disk)|
      ensures 0 < chunkSize <= |data| - written
      ensures written + chunkSize < |data| ==> (nodes[id].size + chunkSize) % SECTOR_SIZE == 0
      ensures forall x :: 0 <= x < |disk| && x !in l[..n1] ==> disk[x] == old(disk)[x]
      ensures forall k: nat :: k < nodes[id].size + chunkSize ==>
        ByteAt(disk, l, k) == (if k < nodes[id].size then ByteAt(old(disk), l, k)
                               else data[written..written + chunkSize][k - nodes[id].size])
    {
      hide ByteAt, NoDup, InRange;
      var size := nodes[id].size;
      var sectorIdx, offsetInSector := size / SECTOR_SIZE, size % SECTOR_SIZE;
      var leftInSector := SECTOR_SIZE - offsetInSector;
      chunkSize := if |data| - written < leftInSector then |data| - written else leftInSector;
      ChunkFits(size, |data| - written, chunkSize);
      var lba := lbas[sectorIdx];
      BlockInRange(l, n1, dataStart, dataStart + bitLen, sectorIdx);
      var ioBuf := seq<Byte>(SECTOR_SIZE, _ => 0);
      if isFirstWrite {
        ioBuf := disk[lba];
      }
      var chunk := data[written..written + chunkSize];
      ChunkStored(disk, l, n1, dataStart, dataStart + bitLen, size, ioBuf, chunk);
      WriteSector(lba, Patch(ioBuf, offsetInSector, chunk));
    }

    lemma BlockInRange(l: seq<Word>, n: nat, lo: nat, hi: nat, i: nat)
      requires i < n <= |l| && InRange(l[..n], lo, hi)
      ensures lo <= l[i] < hi && l[i] in l[..n]
    {
      assert l[i] == l[..n][i] && l[..n][i] in l[..n];
    }

    /** What storing a chunk at the end of a file of `size` bytes does to the blocks in `l`. */
    lemma ChunkStored(disk: Disk, l: seq<Word>, n: nat, lo: nat, hi: nat, size: nat, ioBuf: seq<Byte>, chunk: seq<Byte>)
      requires IsDisk(disk) && n <= |l| && NoDup(l[..n]) && InRange(l[..n], lo, hi) && hi <= |disk|
      requires size / SECTOR_SIZE < n && size % SECTOR_SIZE + |chunk| <= SECTOR_SIZE == |ioBuf|
      requires l[size / SECTOR_SIZE] < |disk| && (size % SECTOR_SIZE == 0 || ioBuf == disk[l[size / SECTOR_SIZE]])
      ensures var disk' := disk[l[size / SECTOR_SIZE] := Patch(ioBuf, size % SECTOR_SIZE, chunk)];
        && (forall x :: 0 <= x < |disk| && x !in l[..n] ==> disk'[x] == disk[x])
        && (forall k: nat :: k < size + |chunk| ==>
             ByteAt(disk', l, k) == if k < size then ByteAt(disk, l, k) else chunk[k - size])
    {
      var (lba, off) := (l[size / SECTOR_SIZE], size % SECTOR_SIZE);
      var buf := Patch(ioBuf, off, chunk);
      assert buf[off..off + |chunk|] == chunk;
      assert off == 0 || buf[..off] == disk[lba][..off];
      BlockInRange(l, n, lo, hi, size / SECTOR_SIZE);
      InRangeWiden(l[..n], lo, hi, |disk|);
      hide Patch, ByteAt, NoDup, InRange;
      ChunkBytes(disk, disk[lba := buf], l, n, size, buf, chunk);
    }

    /** Stores `bytes` in the node area by rewriting the one or two sectors of slot `idx`. */
    method PatchSlot(idx: nat, bytes: seq<Byte>)
      requires Layout() && idx < MAX_FILES && |bytes| == NODE_SIZE
      modifies this`disk
      ensures Layout() && SlotReplaced(old(disk), disk, nodesStart, idx, bytes)
      ensures LiesAt(disk, nodesStart, idx, bytes) && OnlySlotChanged(old(disk), disk, nodesStart, idx)
    {
      ghost var disk0 := disk;
      var pos := PosOf(nodesStart, idx);
      if pos.isAcrossSectors {
        var ioBuf := Patch(disk[pos.lba] + disk[pos.lba + 1], pos.offsetInSector, bytes);
        disk := disk[pos.lba := ioBuf[..SECTOR_SIZE]][pos.lba + 1 := ioBuf[SECTOR_SIZE..]];
      } else {
        disk := disk[pos.lba := Patch(disk[pos.lba], pos.offsetInSector, bytes)];
      }
      forall o: nat | o < NODE_SECTORS * SECTOR_SIZE
        ensures AreaByte(disk, nodesStart, o) ==
          if idx * NODE_SIZE <= o < (idx + 1) * NODE_SIZE then bytes[o - idx * NODE_SIZE]
          else AreaByte(disk0, nodesStart, o)
      {
        PatchedByte(disk0, disk, nodesStart, idx, bytes, o);
      }
      PatchReplacesSlot(disk0, disk, nodesStart, idx, bytes);
      PatchKeepsBytes(disk0, disk, nodesStart, idx, bytes);
      SlotLies(disk, nodesStart, idx);
    }

    /** Saves a node in its slot. */
    method SyncNode(node: IdxNode)
      requires Layout() && node.idx < MAX_FILES && |node.direct| == DIRECT_COUNT
      modifies this`disk
      ensures Layout() && SlotReplaced(old(disk), disk, nodesStart, node.idx, EncodeNode(node))
      ensures StoredNode(disk, nodesStart, node.idx) == node && IsSaved(disk, nodesStart, node)
      ensures OnlySlotChanged(old(disk), disk, nodesStart, node.idx)
    {
      PatchSlot(node.idx, EncodeNode(node));
      NodeRoundTrip(node);
      NodeBytes(node);
    }

    /** Node `id` has grown by `data`; its slot is up to date; nothing else has changed. */
    twostate predicate Appended(file: File, id: nat, data: seq<Byte>)
      requires id in old(nodes)
      reads this, file
    {
      && id in nodes && nodes == old(nodes)[id := nodes[id]]
      && nodes[id].size == old(nodes)[id].size + |data|
      && Content(disk, nodes[id]) == Content(old(disk), old(nodes)[id]) + data
      && (forall j :: j in nodes && j != id ==> Content(disk, nodes[j]) == Content(old(disk), old(nodes)[j]))
      && StoredNode(disk, nodesStart, id) == nodes[id] && IsSaved(disk, nodesStart, nodes[id])
      && HoldsAt(disk, nodes[id], old(nodes)[id].size, data)
      && (forall j: nat :: j < MAX_FILES && j != id ==>
           SlotBytes(disk, nodesStart, j) == SlotBytes(old(disk), nodesStart, j))
      && nodeBitmap == old(nodeBitmap)
      && file.pos == (nodes[id].size - 1) % WORD_LIMIT
    }

    ghost function NeededFor(id: nat, count: nat): nat
      requires id in nodes
      reads this
    {
      SectorsOfMonotone(nodes[id].size, nodes[id].size + count);
      BlocksNeeded(SectorsOf(nodes[id].size), SectorsOf(nodes[id].size + count))
    }

    /** Whether an append fits in the file and in the partition. */
    ghost predicate Fits(id: nat, count: nat)
      requires id in nodes
      reads this
    {
      nodes[id].size + count <= MAX_FILE_SIZE && NeededFor(id, count) <= CountFree(blockBitmap)
    }

    lemma DirectShape(id: nat)
      requires Valid() && id in nodes
      ensures |nodes[id].direct| == DIRECT_COUNT && nodes[id].size <= MAX_FILE_SIZE
      ensures forall i :: 0 <= i < DIRECT_COUNT ==> (nodes[id].direct[i] != 0 <==> i < SectorsOf(nodes[id].size))
    {
      hide NodesStored, TableWords, Uses, NoDup, InRange, CountFree, Owned, HasOwner, Accounted, Lbas;
      NodeShape(disk, nodes, blockBitmap, dataStart, bitLen, id);
    }

    /** When an append needs no block, the last one is not full, or nothing is to be written. */
    lemma LastBlock(size: nat, count: nat)
      requires SectorsOf(size) == SectorsOf(size + count)
      ensures size / SECTOR_SIZE < SectorsOf(size) <==> size % SECTOR_SIZE != 0
      ensures size % SECTOR_SIZE == 0 ==> count == 0
    {
    }

    /** Appends `data` to the file, all of it or nothing. */
    method WriteFile(file: File, data: seq<Byte>) returns (r: WriteResult)
      requires Valid() && file.nodeIdx in nodes && |data| <= KRNL_BASE
      modifies this`disk, this`blockBitmap, this`nodes, file`pos
      ensures Valid()
      ensures r.WriteAssertFailed? <==>
        && data == [] && old(nodes)[file.nodeIdx].size % SECTOR_SIZE == 0
        && SectorsOf(old(nodes)[file.nodeIdx].size) <= DIRECT_COUNT
      ensures r.Written? && old(Fits(file.nodeIdx, |data|)) ==> r.size == |data| && Appended(file, file.nodeIdx, data)
      ensures r.Written? && !old(Fits(file.nodeIdx, |data|)) ==>
        && r.size == 0 && disk == old(disk) && blockBitmap == old(blockBitmap)
        && nodes == old(nodes) && file.pos == old(file.pos)
    {
      hide NodesStored, TableWords, Uses, NoDup, InRange, Content, CountFree, StoredNode, SlotBytes, Owned, HasOwner,
        Accounted, Lbas, IsSaved, HoldsAt;
      var id := file.nodeIdx;
      DirectShape(id);
      hide Appended, BlocksNeeded, SectorsOf;
      var currSize := nodes[id].size;
      if currSize + |data| > MAX_SECTORS * SECTOR_SIZE {
        return Written(0);
      }
      var n0, n1 := SectorsOf(currSize), SectorsOf(currSize + |data|);
      SectorsOfMonotone(currSize, currSize + |data|);
      if n0 == n1 && n1 <= DIRECT_COUNT {
        var last := currSize / SECTOR_SIZE;
        LastBlock(currSize, |data|);
        if last >= DIRECT_COUNT || nodes[id].direct[last] == 0 {
          return WriteAssertFailed;
        }
      }
      var ok := Append(file, id, n0, n1, data);
      return Written(if ok then |data| else 0);
    }

    /** The append proper: collect the blocks, write the data, save the node. */
    method Append(file: File, id: nat, n0: nat, n1: nat, data: seq<Byte>) returns (ok: bool)
      requires Valid() && id in nodes && nodes[id].size + |data| <= MAX_FILE_SIZE
      requires n0 == SectorsOf(nodes[id].size) && n1 == SectorsOf(nodes[id].size + |data|) && n0 <= n1 <= MAX_SECTORS
      requires n0 == n1 ==> nodes[id].size % SECTOR_SIZE != 0 || n1 > DIRECT_COUNT
      modifies this`disk, this`blockBitmap, this`nodes, file`pos
      ensures Valid()
      ensures ok <==> CountFree(old(blockBitmap)) >= BlocksNeeded(n0, n1)
      ensures ok ==> Appended(file, id, data)
      ensures !ok ==>
        disk == old(disk) && blockBitmap == old(blockBitmap) && nodes == old(nodes) && file.pos == old(file.pos)
    {
      hide NodesStored, Accounted, TableWords, Lbas, Uses, NodeUses, NoDup, InRange, Fresh, Taken, WrittenSoFar, ByteAt,
        Content;
      hide StoredNode, SlotBytes, EncodeNode, Blocks, Owned, IsSaved, OnlySlotChanged, HoldsAt;
      ghost var disk0, nodes0, bits0 := disk, nodes, blockBitmap;
      var lbas;
      ghost var s;
      ok, lbas, s := CollectBlocks(id, n0, n1);
      if !ok {
        return;
      }
      ghost var disk1, node1 := disk, nodes[id];
      WriteData(file, id, lbas, n1, data);
      ghost var disk2 := disk;
      FinishAppend(disk0, nodes0, bits0, disk1, node1, disk2, nodes, blockBitmap, id, n0, n1, lbas, s, data);
      SlotsFrame(disk0, disk2, nodesStart);
      SyncNode(nodes[id]);
      NodeSaved(disk0, disk, nodesStart, id, nodes[id], nodes0);
      BelowDataIrrelevant(disk2, disk, nodes, blockBitmap, dataStart, bitLen);
      DataLies(disk, nodes, blockBitmap, dataStart, bitLen, id, Content(disk0, nodes0[id]), data);
    }

    /** The state after the data has been written and before the node is saved. */
    lemma FinishAppend(disk0: Disk, nodes0: Nodes, bits0: Bits, disk1: Disk, node1: IdxNode,
                       disk2: Disk, nodes2: Nodes, bits2: Bits,
                       id: nat, n0: nat, n1: nat, lbas: seq<Word>, s: seq<Word>, data: seq<Byte>)
      requires Accounted(disk0, nodes0, bits0, dataStart, bitLen) && id in nodes0
      requires IsDisk(disk0) && IsDisk(disk2) && |disk0| == |disk2| && 0 < dataStart && dataStart + bitLen <= |disk0|
      requires Fresh(bits0, dataStart, s) && Taken(bits0, bits2, dataStart, s)
      requires n0 == SectorsOf(nodes0[id].size) && n1 == SectorsOf(nodes0[id].size + |data|)
      requires nodes0[id].size + |data| <= MAX_FILE_SIZE
      requires Grown(disk0, nodes0[id], disk1, node1, n0, n1, lbas, s, dataStart, dataStart + bitLen)
      requires nodes2 == nodes0[id := node1.(size := nodes0[id].size + |data|)]
      requires WrittenSoFar(disk1, disk2, Lbas(disk1, node1), nodes0[id].size, data, |data|)
      requires forall x :: 0 <= x < |disk2| && x !in Lbas(disk1, node1)[..n1] ==> disk2[x] == disk1[x]
      ensures Accounted(disk2, nodes2, bits2, dataStart, bitLen)
      ensures Content(disk2, nodes2[id]) == Content(disk0, nodes0[id]) + data
      ensures forall j :: j in nodes2 && j != id ==> Content(disk2, nodes2[j]) == Content(disk0, nodes0[j])
      ensures |nodes2[id].direct| == DIRECT_COUNT
      ensures forall x :: 0 < x < dataStart && x < |disk2| ==> disk2[x] == disk0[x]
    {
      hide Accounted, Fresh, Taken, WrittenSoFar, Content, NodeOk, Lbas, Owned, InRange, SectorsOf, Blocks, NoDup;
      var node2 := nodes2[id];
      AppendContent(disk0, nodes0[id], disk1, node1, disk2, node2, n0, n1, lbas, s, data, dataStart,
        dataStart + bitLen);
      assert |node2.direct| == DIRECT_COUNT;
      hide *;
      OwnedInRange(disk2, node2, dataStart, dataStart + bitLen);
      AppendKeepsAccounts(disk0, disk2, nodes0, id, node2, bits0, bits2, dataStart, bitLen, s);
    }

    /** The data behind the old content lies in the blocks that the node and its table name. */
    static lemma DataLies(disk: Disk, nodes: Nodes, bits: Bits, dataStart: nat, bitLen: nat, id: nat, was: seq<Byte>,
                          data: seq<Byte>)
      requires IsDisk(disk) && Accounted(disk, nodes, bits, dataStart, bitLen) && id in nodes
      requires dataStart + bitLen <= |disk| && Content(disk, nodes[id]) == was + data
      ensures HoldsAt(disk, nodes[id], |was|, data)
    {
      AccountedNode(disk, nodes, bits, dataStart, bitLen, id);
      hide Accounted, NodeUses, Content, HoldsAt;
      assert (was + data)[|was|..|was| + |data|] == data;
      StretchLies(disk, nodes[id], dataStart, dataStart + bitLen, |was|, data);
    }

    lemma OwnedInRange(disk: Disk, node: IdxNode, lo: nat, hi: nat)
      requires NodeOk(disk, node, lo, hi)
      ensures forall x :: x in Owned(disk, node) ==> lo <= x < hi
    {
      hide Uses, NoDup, Blocks;
    }

    /** The number of bytes that a read of `size` bytes at `pos` can return. */
    static function ReadSize(pos: nat, fileSize: nat, size: nat): nat
      requires pos <= fileSize
    {
      if size <= fileSize - pos then size else fileSize - pos
    }

    /**
     The reads that the code refuses: non-empty ones that end at an aligned end of file without a
     sector behind it.
     */
    static predicate EndsBeyondTable(pos: nat, fileSize: nat, size: nat)
      requires pos <= fileSize
    {
      && ReadSize(pos, fileSize, size) > 0
      && pos + ReadSize(pos, fileSize, size) == fileSize && fileSize % SECTOR_SIZE == 0
      && (fileSize / SECTOR_SIZE <= DIRECT_COUNT || fileSize / SECTOR_SIZE == MAX_SECTORS)
    }

    /**
     Moves the access offset, in 32-bit arithmetic. An offset that would lie outside of the
     file, on either side, becomes its end, so that `ReadFile` may follow.
     */
    method SeekFile(file: File, offset: int, origin: SeekOrigin) returns (pos: Word)
      requires Valid() && file.nodeIdx in nodes && -0x8000_0000 <= offset < 0x8000_0000
      requires file.pos <= nodes[file.nodeIdx].size
      modifies file`pos
      ensures file.pos == pos <= nodes[file.nodeIdx].size
      ensures var size := nodes[file.nodeIdx].size;
        var target := offset + (match origin case Begin => 0 case Curr => old(file.pos) case End => size);
        pos == if 0 <= target <= size then target else size
    {
      hide NodesStored, TableWords, Uses, NoDup, InRange, CountFree, Owned, HasOwner, Accounted;
      NodeShape(disk, nodes, blockBitmap, dataStart, bitLen, file.nodeIdx);
      var size := nodes[file.nodeIdx].size;
      var target := (match origin
                     case Begin => offset
                     case Curr => file.pos + offset
                     case End => size + offset) % WORD_LIMIT;
      file.pos := if target <= size then target else size;
      pos := file.pos;
    }

    /** Reads up to `size` bytes at the access offset. */
    method ReadFile(file: File, size: nat) returns (r: ReadResult)
      requires Valid() && file.nodeIdx in nodes && file.pos <= nodes[file.nodeIdx].size
      modifies file`pos
      ensures r.ReadAssertFailed? <==> EndsBeyondTable(old(file.pos), nodes[file.nodeIdx].size, size)
      ensures r.ReadAssertFailed? ==> file.pos == old(file.pos)
      ensures r.Read? ==>
        var count := ReadSize(old(file.pos), nodes[file.nodeIdx].size, size);
        && r.bytes == Content(disk, nodes[file.nodeIdx])[old(file.pos)..old(file.pos) + count]
        && file.pos == old(file.pos) + count
      ensures r.ReadAssertFailed? <==>
        var n := nodes[file.nodeIdx].size;
        && size > 0 && old(file.pos) < n && old(file.pos) + size >= n
        && n % 512 == 0 && (n <= 12 * 512 || n == 140 * 512)
      ensures r.Read? ==> |r.bytes| <= size && (|r.bytes| == size || file.pos == nodes[file.nodeIdx].size)
      ensures r.Read? ==> HoldsAt(disk, nodes[file.nodeIdx], old(file.pos), r.bytes)
    {
      hide NodesStored, TableWords, Uses, NoDup, InRange, CountFree, Owned, HasOwner, Accounted, HoldsAt;
      var id := file.nodeIdx;
      NodeShape(disk, nodes, blockBitmap, dataStart, bitLen, id);
      var count := if size <= nodes[id].size - file.pos then size else nodes[id].size - file.pos;
      assert NodeOk(disk, nodes[id], dataStart, dataStart + bitLen) by {
        AccountedNode(disk, nodes, blockBitmap, dataStart, bitLen, id);
      }
      if count == 0 {
        StretchLies(disk, nodes[id], dataStart, dataStart + bitLen, file.pos, []);
        return Read([]);
      }
      var ok, lbas := CollectRead(id, file.pos, count);
      if !ok {
        return ReadAssertFailed;
      }
      var bytes := ReadData(file, id, lbas, count);
      StretchLies(disk, nodes[id], dataStart, dataStart + bitLen, old(file.pos), bytes);
      return Read(bytes);
    }

    /** `lbas` has the addresses in `l` of all sectors that the bytes `pos`, ..., `end - 1` of a file lie in. */
    static ghost predicate KnowsSectors(lbas: seq<Word>, l: seq<Word>, pos: nat, end: nat) {
      && |lbas| == |l| == MAX_SECTORS
      && forall i :: 0 <= i < MAX_SECTORS && pos < (i + 1) * SECTOR_SIZE && i * SECTOR_SIZE < end ==> lbas[i] == l[i]
    }

    /** The addresses of the blocks that a read covers; fails where the code asserts. */
    method CollectRead(id: nat, pos: nat, count: nat) returns (ok: bool, lbas: seq<Word>)
      requires Valid() && id in nodes && 0 < count && pos + count <= nodes[id].size
      ensures ok <==> !((pos + count) % SECTOR_SIZE == 0 && pos + count == nodes[id].size &&
                        (nodes[id].size / SECTOR_SIZE <= DIRECT_COUNT || nodes[id].size / SECTOR_SIZE == MAX_SECTORS))
      ensures ok ==> KnowsSectors(lbas, Lbas(disk, nodes[id]), pos, pos + count)
    {
      hide NodesStored, TableWords, Uses, NoDup, InRange, CountFree, Owned, HasOwner, Accounted, Lbas;
      NodeShape(disk, nodes, blockBitmap, dataStart, bitLen, id);
      ghost var l, n := Lbas(disk, nodes[id]), SectorsOf(nodes[id].size);
      lbas := Zeros(MAX_SECTORS);
      var startIdx, endIdx := pos / SECTOR_SIZE, (pos + count) / SECTOR_SIZE;
      assert startIdx < n && endIdx <= n <= MAX_SECTORS;
      assert endIdx == n <==> (pos + count) % SECTOR_SIZE == 0 && pos + count == nodes[id].size;
      if endIdx >= MAX_SECTORS {
        return false, lbas;
      }
      if endIdx < DIRECT_COUNT {
        var i := startIdx;
        while i <= endIdx
          invariant startIdx <= i <= endIdx + 1 && |lbas| == MAX_SECTORS
          invariant forall k :: startIdx <= k < i ==> lbas[k] == l[k]
          invariant i > endIdx ==> endIdx < n
        {
          lbas := lbas[i := nodes[id].direct[i]];
          if lbas[i] == 0 {
            return false, lbas;
          }
          i := i + 1;
        }
      } else {
        if startIdx < DIRECT_COUNT {
          var i := startIdx;
          while i != DIRECT_COUNT
            invariant startIdx <= i <= DIRECT_COUNT && |lbas| == MAX_SECTORS
            invariant forall k :: startIdx <= k < i ==> lbas[k] == l[k]
          {
            lbas := lbas[i := nodes[id].direct[i]];
            assert lbas[i] != 0;
            i := i + 1;
          }
        }
        if nodes[id].indirect == 0 {
          return false, lbas;
        }
        var table := LoadTable(id);
        lbas := lbas[..DIRECT_COUNT] + table[DIRECT_COUNT..];
      }
      ok := true;
    }

    /** Reads the part of the file from `pos` on that lies in one sector, at most `left` bytes. */
    method ReadChunk(id: nat, lbas: seq<Word>, pos: nat, left: nat) returns (chunk: seq<Byte>)
      requires Valid() && id in nodes && 0 < left && pos + left <= nodes[id].size
      requires KnowsSectors(lbas, Lbas(disk, nodes[id]), pos, pos + left)
      ensures 0 < |chunk| <= left && chunk == Content(disk, nodes[id])[pos..pos + |chunk|]
    {
      hide NodesStored, TableWords, Uses, NoDup, InRange, CountFree, Owned, HasOwner, Accounted, Lbas, Content;
      NodeShape(disk, nodes, blockBitmap, dataStart, bitLen, id);
      var sectorIdx, offsetInSector := pos / SECTOR_SIZE, pos % SECTOR_SIZE;
      var leftInSector := SECTOR_SIZE - offsetInSector;
      var chunkSize := if left < leftInSector then left else leftInSector;
      assert pos == sectorIdx * SECTOR_SIZE + offsetInSector && sectorIdx < SectorsOf(nodes[id].size);
      assert lbas[sectorIdx] == Lbas(disk, nodes[id])[sectorIdx];
      var ioBuf := disk[lbas[sectorIdx]];
      chunk := ioBuf[offsetInSector..offsetInSector + chunkSize];
      ContentChunk(disk, nodes[id], pos, chunkSize);
    }

    /** The read loop: one sector at a time. */
    method ReadData(file: File, id: nat, lbas: seq<Word>, count: nat) returns (bytes: seq<Byte>)
      requires Valid() && id in nodes && 0 < count && file.pos + count <= nodes[id].size
      requires KnowsSectors(lbas, Lbas(disk, nodes[id]), file.pos, file.pos + count)
      modifies file`pos
      ensures bytes == Content(disk, nodes[id])[old(file.pos)..old(file.pos) + count]
      ensures file.pos == old(file.pos) + count
    {
      hide Valid, Lbas, Content;
      ghost var pos0, content := file.pos, Content(disk, nodes[id]);
      bytes := [];
      while |bytes| < count
        invariant Valid() && |bytes| <= count && file.pos == pos0 + |bytes|
        invariant bytes == content[pos0..pos0 + |bytes|]
        decreases count - |bytes|
      {
        var chunk := ReadChunk(id, lbas, file.pos, count - |bytes|);
        SlicesJoined(content, pos0, file.pos, file.pos + |chunk|);
        bytes := bytes + chunk;
        file.pos := file.pos + |chunk|;
      }
    }

    /** Gives back every block of node `id`: those that its addresses list, and its table. */
    method FreeBlocksOf(id: nat)
      requires Valid() && id in nodes
      modifies this`blockBitmap
      ensures Layout() && |blockBitmap| == |old(blockBitmap)|
      ensures forall b :: 0 <= b < |blockBitmap| ==>
        (blockBitmap[b] <==> old(blockBitmap)[b] && dataStart + b !in Owned(disk, nodes[id]))
    {
      hide NodesStored, TableWords, Uses, NoDup, InRange, CountFree, Owned, HasOwner, Accounted, Lbas, Content;
      NodeShape(disk, nodes, blockBitmap, dataStart, bitLen, id);
      ghost var bits0 := blockBitmap;
      var lbas := Lbas(disk, nodes[id]);
      var i := 0;
      while i != |lbas|
        modifies this`blockBitmap
        invariant i <= |lbas| && Layout() && |blockBitmap| == |bits0|
        invariant forall b :: 0 <= b < |bits0| ==> (blockBitmap[b] <==> bits0[b] && dataStart + b !in lbas[..i])
      {
        assert lbas[..i + 1] == lbas[..i] + [lbas[i]];
        if lbas[i] != 0 {
          FreeBlock(lbas[i]);
        }
        i := i + 1;
      }
      assert lbas[..i] == lbas;
      var tab := nodes[id].indirect;
      if tab != 0 {
        FreeBlock(tab);
      }
    }

    /** Deletes node `id` and gives back every block it owned. */
    method DeleteNode(id: nat)
      requires Valid() && id in nodes
      modifies this`disk, this`blockBitmap, this`nodeBitmap, this`nodes
      ensures Valid() && nodes == old(nodes) - {id}
      ensures |blockBitmap| == |old(blockBitmap)| && forall b :: 0 <= b < |blockBitmap| ==>
        (blockBitmap[b] <==> old(blockBitmap)[b] && dataStart + b !in Owned(old(disk), old(nodes)[id]))
      ensures forall j :: j in nodes ==> Content(disk, nodes[j]) == Content(old(disk), nodes[j])
      ensures SlotReplaced(old(disk), disk, nodesStart, id, seq<Byte>(NODE_SIZE, _ => 0))
      ensures LiesAt(disk, nodesStart, id, seq<Byte>(76, _ => 0)) && OnlySlotChanged(old(disk), disk, nodesStart, id)
    {
      hide NodesStored, TableWords, Uses, NoDup, InRange, CountFree, Owned, HasOwner, Accounted, Lbas, Content,
        SlotReplaced, LiesAt, OnlySlotChanged;
      ghost var bits0, nodes0 := blockBitmap, nodes;
      FreeBlocksOf(id);
      DropNode(disk, nodes, id, bits0, blockBitmap, dataStart, bitLen);
      nodeBitmap := nodeBitmap[id := false];
      nodes := nodes - {id};
      PatchSlot(id, seq<Byte>(NODE_SIZE, _ => 0));
      SlotReplacedAbove(old(disk), disk, nodesStart, id, seq<Byte>(NODE_SIZE, _ => 0), dataStart);
      SlotCleared(old(disk), disk, nodesStart, id, seq<Byte>(NODE_SIZE, _ => 0), nodes0);
      BelowDataIrrelevant(old(disk), disk, nodes, blockBitmap, dataStart, bitLen);
    }

    /** The first slot without a live node. */
    method AllocNode() returns (r: Option<nat>)
      modifies this`nodeBitmap
      ensures r == FindRun(old(nodeBitmap), 1)
      ensures match r
        case Some(idx) =>
          && idx < |old(nodeBitmap)| && !old(nodeBitmap)[idx] && nodeBitmap == old(nodeBitmap)[idx := true]
          && forall i :: 0 <= i < idx ==> nodeBitmap[i]
        case None => nodeBitmap == old(nodeBitmap) && forall i :: 0 <= i < |nodeBitmap| ==> nodeBitmap[i]
    {
      r := FindRun(nodeBitmap, 1);
      FindRunCharacterised(nodeBitmap, 1, r);
      assert forall i: nat :: i < |nodeBitmap| ==> (IsFreeRun(nodeBitmap, i, 1) <==> !nodeBitmap[i]);
      if r.Some? {
        nodeBitmap := Mark(nodeBitmap, r.value, 1, true);
      }
    }

    /** Takes a free slot for a new, empty node. */
    method CreateNode() returns (r: Option<nat>)
      requires Valid()
      modifies this`disk, this`nodeBitmap, this`nodes
      ensures Valid()
      ensures r == FindRun(old(nodeBitmap), 1)
      ensures r.None? <==> forall i :: 0 <= i < MAX_FILES ==> i in old(nodes)
      ensures r.None? ==> nodes == old(nodes) && disk == old(disk) && nodeBitmap == old(nodeBitmap)
      ensures r.Some? ==>
        && r.value !in old(nodes) && r.value < MAX_FILES
        && nodes == old(nodes)[r.value := IdxNode(r.value, 0, Zeros(DIRECT_COUNT), 0)]
        && nodeBitmap == old(nodeBitmap)[r.value := true]
        && SlotReplaced(old(disk), disk, nodesStart, r.value, EncodeNode(nodes[r.value]))
        && StoredNode(disk, nodesStart, r.value) == nodes[r.value] && IsSaved(disk, nodesStart, nodes[r.value])
        && OnlySlotChanged(old(disk), disk, nodesStart, r.value)
        && forall j :: j in old(nodes) ==> Content(disk, nodes[j]) == Content(old(disk), nodes[j])
    {
      hide NodesStored, TableWords, Uses, NoDup, InRange, CountFree, Owned, HasOwner, Accounted, Lbas, Content,
        StoredNode, FindRun, EncodeNode, SlotBytes, IsSaved, OnlySlotChanged;
      r := AllocNode();
      if r.None? {
        return;
      }
      var node := IdxNode(r.value, 0, Zeros(DIRECT_COUNT), 0);
      AddEmptyNode(disk, nodes, r.value, node, blockBitmap, dataStart, bitLen);
      nodes := nodes[r.value := node];
      SyncNode(node);
      NodeSaved(old(disk), disk, nodesStart, r.value, node, old(nodes));
      SlotReplacedAbove(old(disk), disk, nodesStart, r.value, EncodeNode(node), dataStart);
      BelowDataIrrelevant(old(disk), disk, nodes, blockBitmap, dataStart, bitLen);
    }
  }
}
