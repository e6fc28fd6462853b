/**
 The index node area of a partition: fixed-size slots laid end to end over sectors, so
 that a slot may straddle two of them.
 */
module NodeTable {
  import opened Words
  import opened Sectors
  import opened IndexNodes

  /** Two list links, six more words of attributes, 12 direct addresses and the table address. */
  const NODE_SIZE := 76
  const NODE_WORDS := 19
  const MAX_FILES := 4096
  const NODE_SECTORS := 608

  datatype NodePos = NodePos(lba: nat, offsetInSector: nat, isAcrossSectors: bool)

  function PosOf(nodesStart: nat, idx: nat): NodePos {
    var offset := idx * NODE_SIZE;
    NodePos(nodesStart + offset / SECTOR_SIZE, offset % SECTOR_SIZE, SECTOR_SIZE - offset % SECTOR_SIZE < NODE_SIZE)
  }

  /** The stored words of a node: its list links, open count and writing status are cleared. */
  function NodeWords(node: IdxNode): (r: seq<Word>)
    requires |node.direct| == DIRECT_COUNT
    ensures |r| == NODE_WORDS
  {
    [0, 0, node.idx, node.size, 0, 0] + node.direct + [node.indirect]
  }

  function WordsNode(words: seq<Word>): IdxNode
    requires |words| == NODE_WORDS
  {
    IdxNode(words[2], words[3], words[6..18], words[18])
  }

  lemma WordsRoundTrip(node: IdxNode)
    requires |node.direct| == DIRECT_COUNT
    ensures WordsNode(NodeWords(node)) == node
  {
    assert NodeWords(node)[6..18] == node.direct;
  }

  function EncodeNode(node: IdxNode): (r: seq<Byte>)
    requires |node.direct| == DIRECT_COUNT
    ensures |r| == NODE_SIZE
  {
    EncodeWords(NodeWords(node))
  }

  function DecodeNode(bytes: seq<Byte>): IdxNode
    requires |bytes| == NODE_SIZE
  {
    WordsNode(DecodeWords(bytes))
  }

  /** Loading a stored node gives the node back. */
  lemma NodeRoundTrip(node: IdxNode)
    requires |node.direct| == DIRECT_COUNT
    ensures DecodeNode(EncodeNode(node)) == node
  {
    DecodeEncode(NodeWords(node));
    WordsRoundTrip(node);
  }

  // The bytes of a node.

  /** The attributes and addresses of a node at their places in a slot. */
  ghost predicate HasFields(bytes: seq<Byte>, node: IdxNode) {
    && |bytes| == NODE_SIZE && |node.direct| == DIRECT_COUNT
    && WordAt(bytes, 8, node.idx) && WordAt(bytes, 12, node.size)
    && (forall i: nat :: i < 12 ==> WordAt(bytes, 24 + 4 * i, node.direct[i]))
    && WordAt(bytes, 72, node.indirect)
  }

  /** The bytes of a saved node: its list links, open count and writing status are zero. */
  ghost predicate IsSavedNode(bytes: seq<Byte>, node: IdxNode) {
    HasFields(bytes, node) && WordAt(bytes, 0, 0) && WordAt(bytes, 4, 0) && WordAt(bytes, 16, 0) && WordAt(bytes, 20, 0)
  }

  lemma NodeBytes(node: IdxNode)
    requires |node.direct| == DIRECT_COUNT
    ensures IsSavedNode(EncodeNode(node), node)
  {
    EncodedWords(NodeWords(node));
    NodeWordsAt(node);
    hide EncodeWords, WordAt, NodeWords, IsSavedNode;
    FieldsOfWords(NodeWords(node), EncodeNode(node), node);
  }

  lemma FieldsOfWords(words: seq<Word>, bytes: seq<Byte>, node: IdxNode)
    requires |words| == NODE_WORDS && |bytes| == NODE_SIZE && |node.direct| == DIRECT_COUNT
    requires forall k: nat :: k < NODE_WORDS ==> WordAt(bytes, 4 * k, words[k])
    requires words[0] == words[1] == words[4] == words[5] == 0 && words[2] == node.idx && words[3] == node.size
    requires words[18] == node.indirect && forall i: nat :: i < 12 ==> words[6 + i] == node.direct[i]
    ensures IsSavedNode(bytes, node)
  {
    hide WordAt;
    forall i: nat | i < 12 ensures WordAt(bytes, 24 + 4 * i, node.direct[i]) {
      assert WordAt(bytes, 4 * (6 + i), words[6 + i]);
    }
  }

  lemma NodeWordsAt(node: IdxNode)
    requires |node.direct| == DIRECT_COUNT
    ensures var words := NodeWords(node);
      && words[0] == words[1] == words[4] == words[5] == 0 && words[2] == node.idx && words[3] == node.size
      && words[18] == node.indirect && forall i: nat :: i < 12 ==> words[6 + i] == node.direct[i]
  {
  }

  lemma NodeFields(bytes: seq<Byte>)
    requires |bytes| == NODE_SIZE
    ensures HasFields(bytes, DecodeNode(bytes))
  {
    var words := DecodeWords(bytes);
    DecodedWords(bytes);
    hide DecodeWords, WordAt;
    forall i: nat | i < 12 ensures WordAt(bytes, 24 + 4 * i, words[6..18][i]) {
      assert words[6 + i] == words[6..18][i];
    }
  }

  /** Byte `o` of the area that starts at sector `start`, as it lies on the disk. */
  ghost predicate ByteLies(disk: Disk, start: nat, o: nat, b: Byte) {
    start + o / 512 < |disk| && |disk[start + o / 512]| == 512 && disk[start + o / 512][o % 512] == b
  }

  /** Slot `idx` has these bytes. */
  ghost predicate LiesAt(disk: Disk, start: nat, idx: nat, bytes: seq<Byte>) {
    && |bytes| == 76
    && forall k: nat :: k < 76 ==> ByteLies(disk, start, idx * 76 + k, bytes[k])
  }

  ghost predicate IsSaved(disk: Disk, start: nat, node: IdxNode) {
    exists bytes :: LiesAt(disk, start, node.idx, bytes) && IsSavedNode(bytes, node)
  }

  /** Byte `o` of the area, seen as one long array. */
  function AreaByte(disk: Disk, start: nat, o: nat): Byte {
    var s := start + o / SECTOR_SIZE;
    if s < |disk| && |disk[s]| == SECTOR_SIZE then disk[s][o % SECTOR_SIZE] else 0
  }

  function SlotBytes(disk: Disk, start: nat, idx: nat): (r: seq<Byte>)
    ensures |r| == NODE_SIZE
  {
    seq<Byte>(NODE_SIZE, k requires 0 <= k => AreaByte(disk, start, idx * NODE_SIZE + k))
  }

  /** The node that opening slot `idx` would load. */
  function StoredNode(disk: Disk, start: nat, idx: nat): IdxNode {
    DecodeNode(SlotBytes(disk, start, idx))
  }

  lemma SlotLies(disk: Disk, start: nat, idx: nat)
    requires IsDisk(disk) && start + NODE_SECTORS <= |disk| && idx < MAX_FILES
    ensures LiesAt(disk, start, idx, SlotBytes(disk, start, idx))
  {
  }

  /** The node that is loaded from a slot has the fields that the bytes of the slot stand for. */
  lemma LoadedNode(disk: Disk, start: nat, idx: nat, bytes: seq<Byte>)
    requires LiesAt(disk, start, idx, bytes)
    ensures HasFields(bytes, StoredNode(disk, start, idx))
  {
    var slot := SlotBytes(disk, start, idx);
    forall k: nat | k < NODE_SIZE ensures slot[k] == bytes[k] {
      assert ByteLies(disk, start, idx * 76 + k, bytes[k]);
    }
    assert slot == bytes;
    hide DecodeNode;
    NodeFields(bytes);
  }

  /** Every live node is stored in its slot, so opening it loads it. */
  ghost predicate NodesStored(disk: Disk, start: nat, nodes: Nodes) {
    forall i :: i in nodes ==> i < MAX_FILES && StoredNode(disk, start, i) == nodes[i]
  }

  /** `disk'` is `disk` with slot `idx` replaced by `bytes` and nothing else changed. */
  ghost predicate SlotReplaced(disk: Disk, disk': Disk, start: nat, idx: nat, bytes: seq<Byte>) {
    && IsDisk(disk') && |disk'| == |disk|
    && SlotBytes(disk', start, idx) == bytes
    && (forall j: nat :: j < MAX_FILES && j != idx ==> SlotBytes(disk', start, j) == SlotBytes(disk, start, j))
    && (forall s :: 0 <= s < |disk| && !(start <= s < start + NODE_SECTORS) ==> disk'[s] == disk[s])
  }

  /** One node has been saved in its slot; the other slots are as before. */
  lemma NodeSaved(disk: Disk, disk': Disk, start: nat, idx: nat, node: IdxNode, nodes: Nodes)
    requires NodesStored(disk, start, nodes) && idx < MAX_FILES && StoredNode(disk', start, idx) == node
    requires forall j: nat :: j < MAX_FILES && j != idx ==> SlotBytes(disk', start, j) == SlotBytes(disk, start, j)
    ensures NodesStored(disk', start, nodes[idx := node])
  {
    hide SlotBytes, DecodeNode;
  }

  lemma SlotCleared(disk: Disk, disk': Disk, start: nat, idx: nat, bytes: seq<Byte>, nodes: Nodes)
    requires NodesStored(disk, start, nodes) && SlotReplaced(disk, disk', start, idx, bytes)
    ensures NodesStored(disk', start, nodes - {idx})
  {
    hide SlotBytes, DecodeNode;
  }

  lemma SlotReplacedAbove(disk: Disk, disk': Disk, start: nat, idx: nat, bytes: seq<Byte>, dataStart: nat)
    requires SlotReplaced(disk, disk', start, idx, bytes) && start + NODE_SECTORS <= dataStart
    ensures IsDisk(disk') && |disk'| == |disk|
    ensures forall x :: 0 <= x < |disk| && !(start <= x < dataStart) ==> disk'[x] == disk[x]
  {
  }

  /** Slots depend only on the sectors of the node area. */
  lemma SlotsFrame(disk: Disk, disk': Disk, start: nat)
    requires |disk| == |disk'| && forall x :: start <= x < start + NODE_SECTORS && x < |disk| ==> disk'[x] == disk[x]
    ensures forall j: nat :: j < MAX_FILES ==> SlotBytes(disk', start, j) == SlotBytes(disk, start, j)
  {
    forall j: nat, k: nat | j < MAX_FILES && k < NODE_SIZE
      ensures SlotBytes(disk', start, j)[k] == SlotBytes(disk, start, j)[k]
    {
      var q := (j * NODE_SIZE + k) / SECTOR_SIZE;
      assert q < NODE_SECTORS;
      if start + q < |disk| {
        assert disk'[start + q] == disk[start + q];
      }
    }
  }

  /** Where the read-modify-write of one or two sectors leaves each byte of the area. */
  lemma PatchedByte(disk: Disk, disk': Disk, start: nat, idx: nat, bytes: seq<Byte>, o: nat)
    requires IsDisk(disk) && IsDisk(disk') && |disk| == |disk'|
    requires idx < MAX_FILES && |bytes| == NODE_SIZE && start + NODE_SECTORS <= |disk|
    requires o < NODE_SECTORS * SECTOR_SIZE
    requires var pos := PosOf(start, idx);
      var old0 := disk[pos.lba];
      if pos.isAcrossSectors then
        pos.lba + 1 < |disk| &&
        var buf := Patch(old0 + disk[pos.lba + 1], pos.offsetInSector, bytes);
        disk' == disk[pos.lba := buf[..SECTOR_SIZE]][pos.lba + 1 := buf[SECTOR_SIZE..]]
      else
        disk' == disk[pos.lba := Patch(old0, pos.offsetInSector, bytes)]
    ensures AreaByte(disk', start, o) ==
      if idx * NODE_SIZE <= o < (idx + 1) * NODE_SIZE then bytes[o - idx * NODE_SIZE] else AreaByte(disk, start, o)
  {
    var off := idx * NODE_SIZE;
    var pos := PosOf(start, idx);
    var (q, r) := (o / SECTOR_SIZE, o % SECTOR_SIZE);
    assert o == q * SECTOR_SIZE + r;
    assert off == (pos.lba - start) * SECTOR_SIZE + pos.offsetInSector;
    if start + q == pos.lba {
      assert o - off == r - pos.offsetInSector;
    } else if start + q == pos.lba + 1 {
      assert o - off == r + SECTOR_SIZE - pos.offsetInSector;
    }
  }

  /** Overwriting part of a buffer. */
  function Patch(buf: seq<Byte>, offset: nat, bytes: seq<Byte>): (r: seq<Byte>)
    requires offset + |bytes| <= |buf|
    ensures |r| == |buf|
    ensures forall k :: 0 <= k < |buf| ==> r[k] == if offset <= k < offset + |bytes| then bytes[k - offset] else buf[k]
  {
    buf[..offset] + bytes + buf[offset + |bytes|..]
  }

  /** No byte of the disk outside of slot `idx` has changed. */
  ghost predicate OnlySlotChanged(disk: Disk, disk': Disk, start: nat, idx: nat) {
    && IsDisk(disk) && IsDisk(disk') && |disk| == |disk'|
    && forall s: nat, k: nat :: s < |disk| && k < 512 ==>
         disk'[s][k] == disk[s][k] || (s >= start && idx * 76 <= (s - start) * 512 + k < idx * 76 + 76)
  }

  lemma PatchKeepsBytes(disk: Disk, disk': Disk, start: nat, idx: nat, bytes: seq<Byte>)
    requires IsDisk(disk) && IsDisk(disk') && |disk| == |disk'| && start + NODE_SECTORS <= |disk|
    requires idx < MAX_FILES && |bytes| == NODE_SIZE
    requires forall o: nat :: o < NODE_SECTORS * SECTOR_SIZE ==>
      AreaByte(disk', start, o) ==
      (if idx * NODE_SIZE <= o < (idx + 1) * NODE_SIZE then bytes[o - idx * NODE_SIZE] else AreaByte(disk, start, o))
    requires forall s :: 0 <= s < |disk| && !(start <= s < start + NODE_SECTORS) ==> disk'[s] == disk[s]
    ensures OnlySlotChanged(disk, disk', start, idx)
  {
    forall s: nat, k: nat | s < |disk| && k < 512
      ensures disk'[s][k] == disk[s][k] || (s >= start && idx * 76 <= (s - start) * 512 + k < idx * 76 + 76)
    {
      if start <= s < start + NODE_SECTORS {
        var o := (s - start) * 512 + k;
        assert o / 512 == s - start && o % 512 == k;
        assert AreaByte(disk', start, o) == disk'[s][k] && AreaByte(disk, start, o) == disk[s][k];
      }
    }
  }

  lemma PatchReplacesSlot(disk: Disk, disk': Disk, start: nat, idx: nat, bytes: seq<Byte>)
    requires IsDisk(disk) && IsDisk(disk') && |disk| == |disk'|
    requires idx < MAX_FILES && start + NODE_SECTORS <= |disk|
    requires |bytes| == NODE_SIZE
    requires forall o: nat :: o < NODE_SECTORS * SECTOR_SIZE ==>
      AreaByte(disk', start, o) ==
      (if idx * NODE_SIZE <= o < (idx + 1) * NODE_SIZE then bytes[o - idx * NODE_SIZE] else AreaByte(disk, start, o))
    requires forall s :: 0 <= s < |disk| && !(start <= s < start + NODE_SECTORS) ==> disk'[s] == disk[s]
    ensures SlotReplaced(disk, disk', start, idx, bytes)
  {
    forall j: nat, k: nat | j < MAX_FILES && k < NODE_SIZE
      ensures SlotBytes(disk', start, j)[k] == if j == idx then bytes[k] else SlotBytes(disk, start, j)[k]
    {
      var o := j * NODE_SIZE + k;
      assert o < NODE_SECTORS * SECTOR_SIZE;
    }
  }
}
