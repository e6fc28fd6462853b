/**
 Index nodes: which blocks a node uses, what its file contains, and how the bitmap of the
 partition accounts for the blocks of all live nodes.
 */
module IndexNodes {
  import opened Words
  import opened Sectors
  import opened BitRuns

  const DIRECT_COUNT := 12
  const INDIRECT_COUNT := 128
  const MAX_SECTORS := 140
  const MAX_FILE_SIZE := 71680

  datatype IdxNode = IdxNode(idx: Word, size: Word, direct: seq<Word>, indirect: Word)

  /** The number of blocks that `size` bytes occupy. */
  function SectorsOf(size: nat): nat {
    RoundUpDivide(size, SECTOR_SIZE)
  }

  function Zeros(n: nat): seq<Word> {
    seq(n, _ => 0)
  }

  /** The words of an indirect block table; no table counts as an empty one. */
  function TableWords(disk: Disk, tab: Word): (r: seq<Word>)
    ensures |r| == INDIRECT_COUNT
  {
    if tab != 0 && tab < |disk| && |disk[tab]| == SECTOR_SIZE then DecodeWords(disk[tab]) else Zeros(INDIRECT_COUNT)
  }

  /** All block addresses of a node, direct ones first. */
  function Lbas(disk: Disk, node: IdxNode): seq<Word> {
    node.direct + TableWords(disk, node.indirect)
  }

  /** A node with exactly the first `n` block addresses in use, and a table iff it needs one. */
  ghost predicate Uses(disk: Disk, node: IdxNode, n: nat) {
    && |node.direct| == DIRECT_COUNT && n <= MAX_SECTORS
    && (forall i :: 0 <= i < MAX_SECTORS ==> (Lbas(disk, node)[i] != 0 <==> i < n))
    && (node.indirect != 0 <==> n > DIRECT_COUNT)
  }

  /** The blocks that a node with `n` data blocks owns: its data blocks and its table. */
  function Blocks(disk: Disk, node: IdxNode, n: nat): seq<Word> {
    (if n <= |Lbas(disk, node)| then Lbas(disk, node)[..n] else []) +
    (if node.indirect != 0 then [node.indirect] else [])
  }

  function Owned(disk: Disk, node: IdxNode): seq<Word> {
    Blocks(disk, node, SectorsOf(node.size))
  }

  ghost predicate NoDup(s: seq<Word>) {
    forall i, j :: 0 <= i < j < |s| ==> s[i] != s[j]
  }

  ghost predicate InRange(s: seq<Word>, lo: nat, hi: nat) {
    forall x :: x in s ==> lo <= x < hi
  }

  lemma InRangeWiden(s: seq<Word>, lo: nat, hi: nat, hi': nat)
    requires InRange(s, lo, hi) && hi <= hi'
    ensures InRange(s, 0, hi')
  {
  }

  /** A node whose `n` blocks are distinct data blocks of the partition. */
  ghost predicate NodeUses(disk: Disk, node: IdxNode, n: nat, lo: nat, hi: nat) {
    && Uses(disk, node, n)
    && NoDup(Blocks(disk, node, n))
    && InRange(Blocks(disk, node, n), lo, hi)
  }

  ghost predicate NodeOk(disk: Disk, node: IdxNode, lo: nat, hi: nat) {
    && node.size <= MAX_FILE_SIZE
    && NodeUses(disk, node, SectorsOf(node.size), lo, hi)
  }

  /** Byte `k` of the file, wherever its block is. */
  function ByteAt(disk: Disk, lbas: seq<Word>, k: nat): Byte {
    var s := k / SECTOR_SIZE;
    if s < |lbas| && lbas[s] < |disk| && |disk[lbas[s]]| == SECTOR_SIZE then disk[lbas[s]][k % SECTOR_SIZE] else 0
  }

  /** What the file of a node contains. */
  function Content(disk: Disk, node: IdxNode): (r: seq<Byte>)
    ensures |r| == node.size
  {
    seq(node.size, k requires 0 <= k => ByteAt(disk, Lbas(disk, node), k))
  }

  // The blocks and bytes of a file as they lie on the disk.

  /** Block `i` of a file is sector `lba`: the node says so, or else its table on the disk. */
  ghost predicate IsBlock(disk: Disk, node: IdxNode, i: nat, lba: nat) {
    if i < 12 then i < |node.direct| && node.direct[i] == lba
    else 0 < node.indirect < |disk| && WordAt(disk[node.indirect], 4 * (i - 12), lba)
  }

  ghost predicate IsFileByte(disk: Disk, node: IdxNode, k: nat, b: Byte) {
    exists lba: nat ::
      IsBlock(disk, node, k / 512, lba) && lba < |disk| && |disk[lba]| == 512 && disk[lba][k % 512] == b
  }

  /** The bytes of a file from `pos` on, as they lie on the disk. */
  ghost predicate HoldsAt(disk: Disk, node: IdxNode, pos: nat, bytes: seq<Byte>) {
    forall k: nat :: k < |bytes| ==> IsFileByte(disk, node, pos + k, bytes[k])
  }

  lemma StretchLies(disk: Disk, node: IdxNode, lo: nat, hi: nat, pos: nat, bytes: seq<Byte>)
    requires IsDisk(disk) && NodeOk(disk, node, lo, hi) && hi <= |disk| && pos + |bytes| <= node.size
    requires Content(disk, node)[pos..pos + |bytes|] == bytes
    ensures HoldsAt(disk, node, pos, bytes)
  {
    hide Content, IsFileByte, NodeOk;
    forall k: nat | k < |bytes| ensures IsFileByte(disk, node, pos + k, bytes[k]) {
      ContentLies(disk, node, lo, hi, pos + k);
      assert Content(disk, node)[pos + k] == Content(disk, node)[pos..pos + |bytes|][k];
    }
  }

  lemma BlockIs(disk: Disk, node: IdxNode, i: nat)
    requires IsDisk(disk) && |node.direct| == DIRECT_COUNT && i < MAX_SECTORS
    requires i >= DIRECT_COUNT ==> 0 < node.indirect < |disk|
    ensures forall lba: nat :: IsBlock(disk, node, i, lba) <==> lba == Lbas(disk, node)[i]
  {
    if i >= DIRECT_COUNT {
      DecodedWords(disk[node.indirect]);
      assert Lbas(disk, node)[i] == DecodeWords(disk[node.indirect])[i - 12];
      hide DecodeWords;
    }
  }

  /** A file contains a byte exactly if that byte lies in the block that the node and its table name. */
  lemma ContentLies(disk: Disk, node: IdxNode, lo: nat, hi: nat, k: nat)
    requires IsDisk(disk) && NodeOk(disk, node, lo, hi) && hi <= |disk| && k < node.size
    ensures forall b :: IsFileByte(disk, node, k, b) <==> Content(disk, node)[k] == b
  {
    var i := k / SECTOR_SIZE;
    NodeBlock(disk, node, lo, hi, i);
    BlockIs(disk, node, i);
    assert |Lbas(disk, node)| == MAX_SECTORS;
    hide IsBlock, Lbas, NodeOk;
    assert IsBlock(disk, node, i, Lbas(disk, node)[i]);
  }

  /** Where block `i` of a file and the table behind it are. */
  lemma NodeBlock(disk: Disk, node: IdxNode, lo: nat, hi: nat, i: nat)
    requires NodeOk(disk, node, lo, hi) && i < SectorsOf(node.size)
    ensures |node.direct| == DIRECT_COUNT && i < MAX_SECTORS && lo <= Lbas(disk, node)[i] < hi
    ensures i >= DIRECT_COUNT ==> node.indirect != 0 && lo <= node.indirect < hi
  {
    var n := SectorsOf(node.size);
    assert Blocks(disk, node, n)[i] == Lbas(disk, node)[i] && Lbas(disk, node)[i] in Owned(disk, node);
    if i >= DIRECT_COUNT {
      assert Blocks(disk, node, n)[n] == node.indirect && node.indirect in Owned(disk, node);
    }
  }

  /** A node keeps its blocks and its content while their sectors keep theirs. */
  lemma NodeFrame(disk: Disk, disk': Disk, node: IdxNode, lo: nat, hi: nat)
    requires IsDisk(disk) && IsDisk(disk') && |disk| == |disk'| && hi <= |disk|
    requires NodeOk(disk, node, lo, hi)
    requires forall x :: x in Owned(disk, node) ==> x < |disk| && disk'[x] == disk[x]
    ensures Lbas(disk', node) == Lbas(disk, node) && Owned(disk', node) == Owned(disk, node)
    ensures NodeOk(disk', node, lo, hi)
    ensures Content(disk', node) == Content(disk, node)
  {
    var n := SectorsOf(node.size);
    if node.indirect != 0 {
      assert Blocks(disk, node, n)[n] == node.indirect;
    }
    assert TableWords(disk', node.indirect) == TableWords(disk, node.indirect);
    hide TableWords;
    forall k: nat | k < node.size
      ensures ByteAt(disk', Lbas(disk', node), k) == ByteAt(disk, Lbas(disk, node), k)
    {
      ByteFrame(disk, disk', node, k);
    }
    hide ByteAt, Lbas, SectorsOf;
  }

  lemma ByteFrame(disk: Disk, disk': Disk, node: IdxNode, k: nat)
    requires SectorsOf(node.size) <= |Lbas(disk, node)| && k < node.size
    requires Lbas(disk', node) == Lbas(disk, node) && |disk| == |disk'|
    requires forall x :: x in Owned(disk, node) ==> x < |disk| && disk'[x] == disk[x]
    ensures ByteAt(disk', Lbas(disk', node), k) == ByteAt(disk, Lbas(disk, node), k)
  {
    hide Lbas;
    var (n, s) := (SectorsOf(node.size), k / SECTOR_SIZE);
    assert s < n && Blocks(disk, node, n)[s] == Lbas(disk, node)[s];
  }

  type Nodes = map<nat, IdxNode>

  /** The blocks of each live node. */
  ghost function Owners(disk: Disk, nodes: Nodes): map<nat, set<Word>> {
    map id | id in nodes :: set x | x in Owned(disk, nodes[id])
  }

  ghost predicate HasOwner(owners: map<nat, set<Word>>, lba: nat) {
    exists id :: id in owners && lba in owners[id]
  }

  /** Owners hold disjoint sets of blocks, and a bit is set iff it is padding or its block has an owner. */
  ghost predicate Balanced(owners: map<nat, set<Word>>, bits: Bits, dataStart: nat, bitLen: nat) {
    && bitLen <= |bits|
    && (forall i, j, x :: i in owners && j in owners && x in owners[i] && x in owners[j] ==> i == j)
    && (forall i, x :: i in owners && x in owners[i] ==> dataStart <= x < dataStart + bitLen)
    && (forall b :: 0 <= b < |bits| ==> (bits[b] <==> b >= bitLen || HasOwner(owners, dataStart + b)))
  }

  ghost predicate NodesOk(disk: Disk, nodes: Nodes, lo: nat, hi: nat) {
    forall id :: id in nodes ==> NodeOk(disk, nodes[id], lo, hi)
  }

  /**
   The block bitmap accounts for the partition: the live nodes own disjoint sets of blocks,
   and a bit is set exactly when it is padding or its block is owned.
   */
  ghost predicate Accounted(disk: Disk, nodes: Nodes, bits: Bits, dataStart: nat, bitLen: nat) {
    && NodesOk(disk, nodes, dataStart, dataStart + bitLen)
    && Balanced(Owners(disk, nodes), bits, dataStart, bitLen)
  }

  /** `s` lists distinct blocks whose bits are clear. */
  ghost predicate Fresh(bits: Bits, dataStart: nat, s: seq<Word>) {
    && NoDup(s)
    && forall x :: x in s ==> dataStart <= x < dataStart + |bits| && !bits[x - dataStart]
  }

  /** `bits'` is `bits` with exactly the blocks of `s` allocated. */
  ghost predicate Taken(bits: Bits, bits': Bits, dataStart: nat, s: seq<Word>) {
    && |bits'| == |bits|
    && forall b :: 0 <= b < |bits| ==> (bits'[b] <==> bits[b] || dataStart + b in s)
  }

  lemma TakeOne(bits: Bits, cur: Bits, dataStart: nat, s: seq<Word>, x: Word)
    requires Fresh(bits, dataStart, s) && Taken(bits, cur, dataStart, s)
    requires dataStart <= x < dataStart + |bits| && !cur[x - dataStart]
    ensures Fresh(bits, dataStart, s + [x])
    ensures Taken(bits, cur[x - dataStart := true], dataStart, s + [x])
  {
    assert x !in s;
    forall i, j | 0 <= i < j < |s + [x]| ensures (s + [x])[i] != (s + [x])[j] {
      assert (s + [x])[i] in s;
    }
  }

  lemma ReturnOne(bits: Bits, cur: Bits, dataStart: nat, s: seq<Word>)
    requires s != [] && Fresh(bits, dataStart, s) && Taken(bits, cur, dataStart, s)
    ensures dataStart <= s[0] < dataStart + |bits|
    ensures Fresh(bits, dataStart, s[1..])
    ensures Taken(bits, cur[s[0] - dataStart := false], dataStart, s[1..])
  {
    var x := s[0];
    assert x in s;
    assert forall y :: y in s[1..] ==> y in s;
    var cur' := cur[x - dataStart := false];
    forall b | 0 <= b < |bits| ensures cur'[b] <==> bits[b] || dataStart + b in s[1..] {
      if b == x - dataStart {
        assert x !in s[1..];
      } else {
        assert dataStart + b in s <==> dataStart + b in s[1..];
      }
    }
  }

  lemma GrowOwner(owners: map<nat, set<Word>>, id: nat, bits: Bits, bits': Bits, dataStart: nat, bitLen: nat,
                  s: seq<Word>)
    requires Balanced(owners, bits, dataStart, bitLen) && id in owners
    requires Fresh(bits, dataStart, s) && Taken(bits, bits', dataStart, s)
    ensures Balanced(owners[id := owners[id] + set x | x in s], bits', dataStart, bitLen)
  {
    var owners' := owners[id := owners[id] + set x | x in s];
    assert forall j, x :: j in owners && x in owners[j] ==> HasOwner(owners, x);
    assert forall x :: x in s ==> !HasOwner(owners, x);
    forall b | 0 <= b < |bits'|
      ensures bits'[b] <==> b >= bitLen || HasOwner(owners', dataStart + b)
    {
      var x := dataStart + b;
      if HasOwner(owners, x) {
        var j :| j in owners && x in owners[j];
        assert j in owners' && x in owners'[j];
      } else if x in s {
        assert id in owners' && x in owners'[id];
      }
    }
  }

  lemma OwnersGrow(disk: Disk, disk': Disk, nodes: Nodes, id: nat, node': IdxNode, s: seq<Word>)
    requires id in nodes
    requires forall x :: x in Owned(disk', node') <==> x in Owned(disk, nodes[id]) || x in s
    requires forall j :: j in nodes && j != id ==> Owned(disk', nodes[j]) == Owned(disk, nodes[j])
    ensures Owners(disk', nodes[id := node']) == Owners(disk, nodes)[id := Owners(disk, nodes)[id] + set x | x in s]
  {
    hide TableWords, Lbas, Blocks, Owned;
    var owners := Owners(disk, nodes);
    var owners' := Owners(disk', nodes[id := node']);
    assert owners'[id] == owners[id] + set x | x in s;
    assert forall j :: j in nodes && j != id ==> owners'[j] == owners[j];
  }

  /** Handing fresh blocks to one node keeps the accounts in order. */
  lemma GrowNode(disk: Disk, disk': Disk, nodes: Nodes, id: nat, node': IdxNode,
                 bits: Bits, bits': Bits, dataStart: nat, bitLen: nat, s: seq<Word>)
    requires Accounted(disk, nodes, bits, dataStart, bitLen) && id in nodes
    requires Fresh(bits, dataStart, s) && Taken(bits, bits', dataStart, s)
    requires NodeOk(disk', node', dataStart, dataStart + bitLen)
    requires forall x :: x in Owned(disk', node') <==> x in Owned(disk, nodes[id]) || x in s
    requires forall j :: j in nodes && j != id ==>
      Owned(disk', nodes[j]) == Owned(disk, nodes[j]) && NodeOk(disk', nodes[j], dataStart, dataStart + bitLen)
    ensures Accounted(disk', nodes[id := node'], bits', dataStart, bitLen)
  {
    GrowOwner(Owners(disk, nodes), id, bits, bits', dataStart, bitLen, s);
    OwnersGrow(disk, disk', nodes, id, node', s);
  }

  lemma DropOwner(owners: map<nat, set<Word>>, id: nat, bits: Bits, bits': Bits, dataStart: nat, bitLen: nat)
    requires Balanced(owners, bits, dataStart, bitLen) && id in owners && |bits'| == |bits|
    requires forall b :: 0 <= b < |bits| ==> (bits'[b] <==> bits[b] && dataStart + b !in owners[id])
    ensures Balanced(owners - {id}, bits', dataStart, bitLen)
  {
    var owners' := owners - {id};
    forall b | 0 <= b < |bits'|
      ensures bits'[b] <==> b >= bitLen || HasOwner(owners', dataStart + b)
    {
      var x := dataStart + b;
      if x !in owners[id] && HasOwner(owners, x) {
        var j :| j in owners && x in owners[j];
        assert j in owners' && x in owners'[j];
      }
    }
  }

  /** Returning all blocks of one node keeps the accounts in order. */
  lemma DropNode(disk: Disk, nodes: Nodes, id: nat, bits: Bits, bits': Bits, dataStart: nat, bitLen: nat)
    requires Accounted(disk, nodes, bits, dataStart, bitLen) && id in nodes && |bits'| == |bits|
    requires forall b :: 0 <= b < |bits| ==> (bits'[b] <==> bits[b] && dataStart + b !in Owned(disk, nodes[id]))
    ensures Accounted(disk, nodes - {id}, bits', dataStart, bitLen)
  {
    DropOwner(Owners(disk, nodes), id, bits, bits', dataStart, bitLen);
    assert Owners(disk, nodes - {id}) == Owners(disk, nodes) - {id};
  }
}
