/** What an append does to the blocks and bytes of one node, on values. */
module FileLemmas {
  import opened BitRuns
  import opened Words
  import opened Sectors
  import opened IndexNodes

  /** `direct` with the addresses `n0`, ..., `n1 - 1` taken from `lbas`. */
  function WithDirect(direct: seq<Word>, lbas: seq<Word>, n0: nat, n1: nat): (r: seq<Word>)
    requires |direct| == DIRECT_COUNT && |lbas| == MAX_SECTORS
    ensures |r| == DIRECT_COUNT
  {
    seq(DIRECT_COUNT, i requires 0 <= i < DIRECT_COUNT => if n0 <= i < n1 then lbas[i] else direct[i])
  }

  lemma WithDirectStep(direct: seq<Word>, lbas: seq<Word>, n0: nat, i: nat, x: Word)
    requires |direct| == DIRECT_COUNT && |lbas| == MAX_SECTORS && n0 <= i < MAX_SECTORS
    ensures WithDirect(direct, lbas[i := x], n0, i + 1) ==
      if i < DIRECT_COUNT then WithDirect(direct, lbas, n0, i)[i := x] else WithDirect(direct, lbas, n0, i)
  {
  }

  /** Blocks owned by a node are allocated, so fresh ones are not among them. */
  lemma OwnedNotFresh(disk: Disk, nodes: Nodes, bits: Bits, dataStart: nat, bitLen: nat, s: seq<Word>, id: nat)
    requires Accounted(disk, nodes, bits, dataStart, bitLen) && Fresh(bits, dataStart, s) && id in nodes
    ensures forall x :: x in s ==> x !in Owned(disk, nodes[id])
  {
    var owners := Owners(disk, nodes);
    forall x | x in Owned(disk, nodes[id]) ensures x !in s {
      assert x in owners[id];
      assert HasOwner(owners, dataStart + (x - dataStart));
    }
  }

  /** Distinct nodes own disjoint blocks. */
  lemma OwnedDisjoint(disk: Disk, nodes: Nodes, bits: Bits, dataStart: nat, bitLen: nat, i: nat, j: nat)
    requires Accounted(disk, nodes, bits, dataStart, bitLen) && i in nodes && j in nodes && i != j
    ensures forall x :: x in Owned(disk, nodes[i]) ==> x !in Owned(disk, nodes[j])
  {
    var owners := Owners(disk, nodes);
    forall x | x in Owned(disk, nodes[i]) ensures x !in Owned(disk, nodes[j]) {
      assert x in owners[i];
      assert owners[j] == set y | y in Owned(disk, nodes[j]);
    }
  }

  lemma FreshInRange(bits: Bits, dataStart: nat, bitLen: nat, s: seq<Word>)
    requires Fresh(bits, dataStart, s) && bitLen <= |bits|
    requires forall b :: bitLen <= b < |bits| ==> bits[b]
    ensures InRange(s, dataStart, dataStart + bitLen)
  {
  }

  /** The table of a node that has one, as a list. */
  function TableList(node: IdxNode): seq<Word> {
    if node.indirect != 0 then [node.indirect] else []
  }

  /** `node'` has the addresses of `node`, then `news`, and the table `tab` when it outgrows its direct blocks. */
  ghost predicate GrownBy(disk: Disk, node: IdxNode, disk': Disk, node': IdxNode, n0: nat, n1: nat,
                          news: seq<Word>, tab: seq<Word>) {
    && n0 <= n1 <= MAX_SECTORS && |node.direct| == |node'.direct| == DIRECT_COUNT && |news| == n1 - n0
    && Lbas(disk', node') == Lbas(disk, node)[..n0] + news + Zeros(MAX_SECTORS - n1)
    && if n0 <= DIRECT_COUNT < n1 then |tab| == 1 && node'.indirect == tab[0]
       else tab == [] && node'.indirect == node.indirect
  }

  lemma GrownShape(disk: Disk, node: IdxNode, disk': Disk, node': IdxNode, n0: nat, n1: nat, news: seq<Word>,
                   tab: seq<Word>)
    requires Uses(disk, node, n0) && GrownBy(disk, node, disk', node', n0, n1, news, tab)
    requires forall x :: x in tab ==> x != 0
    ensures Blocks(disk, node, n0) == Lbas(disk, node)[..n0] + TableList(node)
    ensures Blocks(disk', node', n1) == Lbas(disk, node)[..n0] + news + (TableList(node) + tab)
    ensures TableList(node) == [] || tab == []
  {
    var (l, l') := (Lbas(disk, node), Lbas(disk', node'));
    hide TableWords;
    assert l'[..n1] == l[..n0] + news;
    if tab != [] {
      assert tab[0] in tab && tab == [node'.indirect];
    }
  }

  lemma GrownUses(disk: Disk, node: IdxNode, disk': Disk, node': IdxNode, n0: nat, n1: nat, news: seq<Word>,
                  tab: seq<Word>)
    requires Uses(disk, node, n0) && GrownBy(disk, node, disk', node', n0, n1, news, tab)
    requires forall x :: x in tab + news ==> x != 0
    ensures Uses(disk', node', n1)
  {
    var (l, l') := (Lbas(disk, node), Lbas(disk', node'));
    hide TableWords;
    forall i | 0 <= i < MAX_SECTORS ensures l'[i] != 0 <==> i < n1 {
      if i < n0 {
        assert l'[i] == l[i];
      } else if i < n1 {
        assert l'[i] == news[i - n0] && news[i - n0] in tab + news;
      } else {
        assert l'[i] == Zeros(MAX_SECTORS - n1)[i - n1];
      }
    }
    if tab != [] {
      assert tab[0] in tab + news;
    }
  }

  /**
   Appending the addresses `news` (and, when the node outgrows its direct blocks, the table
   `tab`) to a node's block list: the node then uses `n1` blocks, all distinct.
   */
  lemma GrowBlocks(disk: Disk, node: IdxNode, disk': Disk, node': IdxNode, n0: nat, n1: nat,
                   news: seq<Word>, tab: seq<Word>, lo: nat, hi: nat)
    requires NodeUses(disk, node, n0, lo, hi) && 0 < lo
    requires GrownBy(disk, node, disk', node', n0, n1, news, tab)
    requires NoDup(tab + news) && InRange(tab + news, lo, hi)
    requires forall x :: x in tab + news ==> x !in Blocks(disk, node, n0)
    ensures NodeUses(disk', node', n1, lo, hi)
    ensures forall x :: x in Blocks(disk', node', n1) <==> x in Blocks(disk, node, n0) || x in tab + news
  {
    hide Lbas, Uses, GrownBy, Blocks, NoDup, TableList;
    assert forall x :: x in tab + news ==> x != 0;
    assert forall x :: x in tab ==> x in tab + news;
    GrownUses(disk, node, disk', node', n0, n1, news, tab);
    GrownShape(disk, node, disk', node', n0, n1, news, tab);
    TableListShort(node, tab, disk, disk', node', n0, n1, news);
    NoDupShuffle(Lbas(disk, node)[..n0], TableList(node), tab, news);
  }

  lemma TableListShort(node: IdxNode, tab: seq<Word>, disk: Disk, disk': Disk, node': IdxNode, n0: nat, n1: nat,
                       news: seq<Word>)
    requires GrownBy(disk, node, disk', node', n0, n1, news, tab)
    ensures |TableList(node)| <= 1 && |tab| <= 1 && n0 <= |Lbas(disk, node)|
  {
  }

  lemma NoDupShuffle(a: seq<Word>, t: seq<Word>, tab: seq<Word>, news: seq<Word>)
    requires NoDup(a + t) && NoDup(tab + news)
    requires forall x :: x in tab + news ==> x !in a + t
    requires |t| <= 1 && |tab| <= 1 && (t == [] || tab == [])
    ensures NoDup(a + news + (t + tab))
    ensures forall x :: x in a + news + (t + tab) <==> x in a + t || x in tab + news
  {
    var (p, q, r) := (a + t, tab + news, a + news + (t + tab));
    assert forall i :: 0 <= i < |a| ==> r[i] == p[i];
    assert forall i :: |a| <= i < |a| + |news| ==> r[i] == q[i - |a| + |tab|];
    if t != [] {
      assert t + tab == t && p[|a|] == t[0];
    } else if tab != [] {
      assert t + tab == tab && q[0] == tab[0];
    }
    assert forall i :: 0 <= i < |r| ==> r[i] in p || r[i] in q;
  }

  /** Writing one chunk into one block: the bytes before it stay and its own bytes arrive. */
  lemma ChunkBytes(disk: Disk, disk': Disk, lbas: seq<Word>, n: nat, cur: nat, buf: seq<Byte>, bytes: seq<Byte>)
    requires IsDisk(disk) && n <= |lbas| && NoDup(lbas[..n]) && InRange(lbas[..n], 0, |disk|)
    requires |buf| == SECTOR_SIZE
    requires cur / SECTOR_SIZE < n && lbas[cur / SECTOR_SIZE] < |disk|
    requires cur % SECTOR_SIZE + |bytes| <= SECTOR_SIZE
    requires disk' == disk[lbas[cur / SECTOR_SIZE] := buf]
    requires var off := cur % SECTOR_SIZE;
      && buf[off..off + |bytes|] == bytes
      && (off == 0 || buf[..off] == disk[lbas[cur / SECTOR_SIZE]][..off])
    ensures forall k: nat :: k < cur + |bytes| ==>
      ByteAt(disk', lbas, k) == if k < cur then ByteAt(disk, lbas, k) else bytes[k - cur]
  {
    var (q, off) := (cur / SECTOR_SIZE, cur % SECTOR_SIZE);
    forall k: nat | k < cur + |bytes|
      ensures ByteAt(disk', lbas, k) == if k < cur then ByteAt(disk, lbas, k) else bytes[k - cur]
    {
      var (kq, kr) := (k / SECTOR_SIZE, k % SECTOR_SIZE);
      assert lbas[..n][q] == lbas[q] && lbas[q] in lbas[..n];
      if kq != q {
        assert kq < q;
        assert lbas[..n][kq] == lbas[kq] && lbas[kq] in lbas[..n];
      } else if k < cur {
        assert buf[kr] == buf[..off][kr] == disk[lbas[q]][..off][kr];
      } else {
        assert kr == off + (k - cur);
        assert buf[kr] == buf[off..off + |bytes|][k - cur];
      }
    }
  }

  /** The file so far is the old content followed by the first `written` bytes of `data`. */
  ghost predicate WrittenSoFar(disk0: Disk, disk: Disk, lbas: seq<Word>, start: nat, data: seq<Byte>, written: nat)
    requires written <= |data|
  {
    forall k: nat :: k < start + written ==>
      ByteAt(disk, lbas, k) == if k < start then ByteAt(disk0, lbas, k) else data[k - start]
  }

  lemma WrittenNone(disk: Disk, lbas: seq<Word>, start: nat, data: seq<Byte>)
    ensures WrittenSoFar(disk, disk, lbas, start, data, 0)
  {
  }

  lemma WrittenStep(disk0: Disk, disk: Disk, disk': Disk, lbas: seq<Word>, start: nat, data: seq<Byte>, written: nat,
                    count: nat)
    requires written + count <= |data| && WrittenSoFar(disk0, disk, lbas, start, data, written)
    requires forall k: nat :: k < start + written + count ==>
      ByteAt(disk', lbas, k) ==
        if k < start + written then ByteAt(disk, lbas, k)
        else data[written..written + count][k - (start + written)]
    ensures WrittenSoFar(disk0, disk', lbas, start, data, written + count)
  {
    hide ByteAt;
  }

  /** Offsets are unsigned words, so the one before an empty file wraps around and back. */
  lemma OffsetStep(pos: int, count: nat)
    ensures (pos % WORD_LIMIT + count) % WORD_LIMIT == (pos + count) % WORD_LIMIT
  {
    assert pos == pos / WORD_LIMIT * WORD_LIMIT + pos % WORD_LIMIT;
  }

  lemma DataBlocksDistinct(disk: Disk, node: IdxNode, n: nat, lo: nat, hi: nat)
    requires NodeUses(disk, node, n, lo, hi)
    ensures n <= |Lbas(disk, node)| && NoDup(Lbas(disk, node)[..n]) && InRange(Lbas(disk, node)[..n], lo, hi)
  {
    var l, b := Lbas(disk, node), Blocks(disk, node, n);
    assert forall i :: 0 <= i < n ==> l[..n][i] == b[i];
    assert forall x :: x in l[..n] ==> x in b;
  }

  /** The number of blocks that growing a file from `n0` to `n1` blocks takes. */
  function BlocksNeeded(n0: nat, n1: nat): nat
    requires n0 <= n1
  {
    n1 - n0 + if n0 <= DIRECT_COUNT < n1 then 1 else 0
  }

  /** A block taken before a batch of others. */
  lemma TakeFirst(bits: Bits, mid: Bits, bits': Bits, dataStart: nat, x: Word, s: seq<Word>)
    requires dataStart <= x < dataStart + |bits| && !bits[x - dataStart]
    requires mid == bits[x - dataStart := true]
    requires Fresh(mid, dataStart, s) && Taken(mid, bits', dataStart, s)
    ensures Fresh(bits, dataStart, [x] + s) && Taken(bits, bits', dataStart, [x] + s)
  {
    assert x !in s;
    assert forall i :: 0 <= i < |s| ==> s[i] in s;
    forall b | 0 <= b < |bits| ensures bits'[b] <==> bits[b] || dataStart + b in [x] + s {
      assert dataStart + b in [x] + s <==> dataStart + b == x || dataStart + b in s;
    }
  }

  /** The address list of a node whose new blocks are all direct. */
  lemma DirectLbas(disk: Disk, node: IdxNode, lbas: seq<Word>, n0: nat, n1: nat)
    requires Uses(disk, node, n0) && n0 <= n1 <= DIRECT_COUNT && |lbas| == MAX_SECTORS
    ensures Lbas(disk, node.(direct := WithDirect(node.direct, lbas, n0, n1)))
         == Lbas(disk, node)[..n0] + lbas[n0..n1] + Zeros(MAX_SECTORS - n1)
  {
    var l := Lbas(disk, node);
    var l' := Lbas(disk, node.(direct := WithDirect(node.direct, lbas, n0, n1)));
    assert forall i :: n1 <= i < MAX_SECTORS ==> l[i] == 0 && l'[i] == l[i];
  }

  lemma TableStored(disk: Disk, tab: Word, words: seq<Word>)
    requires 0 < tab < |disk| && |words| == INDIRECT_COUNT
    ensures TableWords(disk[tab := EncodeWords(words)], tab) == words
  {
    DecodeEncode(words);
  }

  /**
   `node'` is `node` grown from `n0` to `n1` blocks by the blocks in `s`; `lbas` holds the
   addresses of the blocks that an append to `node` writes to.
   */
  ghost predicate Grown(disk: Disk, node: IdxNode, disk': Disk, node': IdxNode, n0: nat, n1: nat,
                        lbas: seq<Word>, s: seq<Word>, lo: nat, hi: nat) {
    && Uses(disk, node, n0) && n0 <= n1
    && NodeUses(disk', node', n1, lo, hi)
    && node'.size == node.size && node'.idx == node.idx
    && (forall x :: x in Blocks(disk', node', n1) <==> x in Blocks(disk, node, n0) || x in s)
    && (forall i :: 0 <= i < n0 ==> Lbas(disk', node')[i] == Lbas(disk, node)[i])
    && |lbas| == MAX_SECTORS
    && (forall i :: node.size / SECTOR_SIZE <= i < n1 ==> lbas[i] == Lbas(disk', node')[i])
    && |disk'| == |disk|
    && (forall x :: 0 <= x < |disk| && x != node'.indirect ==> disk'[x] == disk[x])
    && (node'.indirect == 0 ==> disk' == disk)
  }

  lemma GrowDirect(disk: Disk, node: IdxNode, n0: nat, n1: nat, lbas: seq<Word>, lo: nat, hi: nat)
    requires NodeUses(disk, node, n0, lo, hi) && n0 == SectorsOf(node.size) && 0 < lo
    requires n0 <= n1 <= DIRECT_COUNT && |lbas| == MAX_SECTORS
    requires NoDup(lbas[n0..n1]) && InRange(lbas[n0..n1], lo, hi)
    requires forall x :: x in lbas[n0..n1] ==> x !in Blocks(disk, node, n0)
    requires forall i :: node.size / SECTOR_SIZE <= i < n0 ==> lbas[i] == Lbas(disk, node)[i]
    ensures Grown(disk, node, disk, node.(direct := WithDirect(node.direct, lbas, n0, n1)), n0, n1, lbas,
                  lbas[n0..n1], lo, hi)
  {
    hide TableWords;
    DirectLbas(disk, node, lbas, n0, n1);
    assert [] + lbas[n0..n1] == lbas[n0..n1];
    GrowBlocks(disk, node, disk, node.(direct := WithDirect(node.direct, lbas, n0, n1)), n0, n1, lbas[n0..n1], [], lo,
      hi);
  }

  /** The address list of a node after its table has been rewritten from `lbas`. */
  lemma TableLbas(disk: Disk, node: IdxNode, lbas: seq<Word>, n0: nat, n1: nat, tab: Word)
    requires |node.direct| == DIRECT_COUNT && n0 <= n1 <= MAX_SECTORS == |lbas| && DIRECT_COUNT < n1
    requires 0 < tab < |disk|
    requires forall i :: DIRECT_COUNT <= i < n0 ==> lbas[i] == Lbas(disk, node)[i]
    requires forall i :: n1 <= i < MAX_SECTORS ==> lbas[i] == 0
    ensures var node' := node.(direct := WithDirect(node.direct, lbas, n0, n1), indirect := tab);
      Lbas(disk[tab := EncodeWords(lbas[DIRECT_COUNT..])], node')
        == Lbas(disk, node)[..n0] + lbas[n0..n1] + Zeros(MAX_SECTORS - n1)
  {
    TableStored(disk, tab, lbas[DIRECT_COUNT..]);
    JoinLbas(node.direct, TableWords(disk, node.indirect), lbas, n0, n1);
  }

  lemma JoinLbas(direct: seq<Word>, table: seq<Word>, lbas: seq<Word>, n0: nat, n1: nat)
    requires |direct| == DIRECT_COUNT && |table| == INDIRECT_COUNT
    requires n0 <= n1 <= MAX_SECTORS == |lbas| && DIRECT_COUNT < n1
    requires forall i :: DIRECT_COUNT <= i < n0 ==> lbas[i] == (direct + table)[i]
    requires forall i :: n1 <= i < MAX_SECTORS ==> lbas[i] == 0
    ensures WithDirect(direct, lbas, n0, n1) + lbas[DIRECT_COUNT..]
         == (direct + table)[..n0] + lbas[n0..n1] + Zeros(MAX_SECTORS - n1)
  {
    var l := WithDirect(direct, lbas, n0, n1) + lbas[DIRECT_COUNT..];
    var r := (direct + table)[..n0] + lbas[n0..n1] + Zeros(MAX_SECTORS - n1);
    forall i | 0 <= i < MAX_SECTORS ensures l[i] == r[i] {
      if i < n0 {
        assert r[i] == (direct + table)[i];
      } else if i < n1 {
        assert r[i] == lbas[i];
      } else {
        assert r[i] == 0;
      }
    }
  }

  /** Growing a node beyond its direct blocks, with a new table or the one it has. */
  lemma GrowWithTable(disk: Disk, node: IdxNode, n0: nat, n1: nat, lbas: seq<Word>, tab: Word, tabs: seq<Word>, lo: nat,
                      hi: nat)
    requires NodeUses(disk, node, n0, lo, hi) && n0 == SectorsOf(node.size) && 0 < lo
    requires hi <= |disk|
    requires n0 <= n1 <= MAX_SECTORS == |lbas| && DIRECT_COUNT < n1 && lo <= tab < hi
    requires if n0 <= DIRECT_COUNT then tabs == [tab] else tabs == [] && tab == node.indirect
    requires NoDup(tabs + lbas[n0..n1]) && InRange(tabs + lbas[n0..n1], lo, hi)
    requires forall x :: x in tabs + lbas[n0..n1] ==> x !in Blocks(disk, node, n0)
    requires forall i :: node.size / SECTOR_SIZE <= i < n0 ==> lbas[i] == Lbas(disk, node)[i]
    requires forall i :: DIRECT_COUNT <= i < n0 ==> lbas[i] == Lbas(disk, node)[i]
    requires forall i :: n1 <= i < MAX_SECTORS ==> lbas[i] == 0
    ensures Grown(disk, node, disk[tab := EncodeWords(lbas[DIRECT_COUNT..])],
                  node.(direct := WithDirect(node.direct, lbas, n0, n1), indirect := tab), n0, n1, lbas,
                  tabs + lbas[n0..n1], lo, hi)
  {
    var disk' := disk[tab := EncodeWords(lbas[DIRECT_COUNT..])];
    var node' := node.(direct := WithDirect(node.direct, lbas, n0, n1), indirect := tab);
    TableLbas(disk, node, lbas, n0, n1, tab);
    GrowBlocks(disk, node, disk', node', n0, n1, lbas[n0..n1], tabs, lo, hi);
    GrownFromLbas(disk, node, disk', node', n0, n1, lbas, tabs + lbas[n0..n1], lo, hi);
  }

  lemma GrownFromLbas(disk: Disk, node: IdxNode, disk': Disk, node': IdxNode, n0: nat, n1: nat,
                      lbas: seq<Word>, s: seq<Word>, lo: nat, hi: nat)
    requires Uses(disk, node, n0) && n0 <= n1 && NodeUses(disk', node', n1, lo, hi) && |lbas| == MAX_SECTORS
    requires node'.size == node.size && node'.idx == node.idx
    requires forall x :: x in Blocks(disk', node', n1) <==> x in Blocks(disk, node, n0) || x in s
    requires Lbas(disk', node') == Lbas(disk, node)[..n0] + lbas[n0..n1] + Zeros(MAX_SECTORS - n1)
    requires forall i :: node.size / SECTOR_SIZE <= i < n0 ==> lbas[i] == Lbas(disk, node)[i]
    requires |disk'| == |disk| && forall x :: 0 <= x < |disk| && x != node'.indirect ==> disk'[x] == disk[x]
    requires node'.indirect == 0 ==> disk' == disk
    ensures Grown(disk, node, disk', node', n0, n1, lbas, s, lo, hi)
  {
    var l' := Lbas(disk', node');
    assert forall i :: n0 <= i < n1 ==> l'[i] == lbas[n0..n1][i - n0];
  }

  /** The blocks taken for a live node are distinct data blocks that it did not own. */
  lemma TakenBlocks(disk: Disk, nodes: Nodes, bits: Bits, dataStart: nat, bitLen: nat, s: seq<Word>, id: nat)
    requires Accounted(disk, nodes, bits, dataStart, bitLen) && Fresh(bits, dataStart, s) && id in nodes
    requires forall b :: bitLen <= b < |bits| ==> bits[b]
    ensures NoDup(s) && InRange(s, dataStart, dataStart + bitLen)
    ensures forall x :: x in s ==> x !in Owned(disk, nodes[id])
  {
    OwnedNotFresh(disk, nodes, bits, dataStart, bitLen, s, id);
    FreshInRange(bits, dataStart, bitLen, s);
  }

  /** Blocks `n0`, ..., `i - 1` of node `id` have been allocated since `bits0` and `nodes0`. */
  ghost predicate Reserving(bits: Bits, nodes: Nodes, dataStart: nat, id: nat, lbas: seq<Word>, n0: nat, i: nat,
                            bits0: Bits, nodes0: Nodes)
  {
    && n0 <= i <= |lbas| == MAX_SECTORS && id in nodes0 && |nodes0[id].direct| == DIRECT_COUNT
    && Fresh(bits0, dataStart, lbas[n0..i]) && Taken(bits0, bits, dataStart, lbas[n0..i])
    && CountFree(bits) + (i - n0) == CountFree(bits0)
    && nodes == nodes0[id := nodes0[id].(direct := WithDirect(nodes0[id].direct, lbas, n0, i))]
  }

  lemma ReservingStep(bits: Bits, nodes: Nodes, dataStart: nat, id: nat, lbas: seq<Word>, n0: nat, i: nat,
                      bits0: Bits, nodes0: Nodes, x: Word)
    requires Reserving(bits, nodes, dataStart, id, lbas, n0, i, bits0, nodes0) && i < MAX_SECTORS
    requires dataStart <= x < dataStart + |bits| && !bits[x - dataStart]
    requires CountFree(bits[x - dataStart := true]) == CountFree(bits) - 1
    ensures Reserving(bits[x - dataStart := true],
                      if i < DIRECT_COUNT then nodes[id := nodes[id].(direct := nodes[id].direct[i := x])] else nodes,
                      dataStart, id, lbas[i := x], n0, i + 1, bits0, nodes0)
  {
    TakeOne(bits0, bits, dataStart, lbas[n0..i], x);
    WithDirectStep(nodes0[id].direct, lbas, n0, i, x);
    assert lbas[i := x][n0..i + 1] == lbas[n0..i] + [x];
  }

  lemma AccountedNode(disk: Disk, nodes: Nodes, bits: Bits, dataStart: nat, bitLen: nat, id: nat)
    requires Accounted(disk, nodes, bits, dataStart, bitLen) && id in nodes
    ensures bitLen <= |bits| && NodeUses(disk, nodes[id], SectorsOf(nodes[id].size), dataStart, dataStart + bitLen)
    ensures nodes[id].size <= MAX_FILE_SIZE
  {
  }

  /** The table taken first and the blocks taken after it, as one batch. */
  lemma TableAndBlocks(disk: Disk, nodes: Nodes, bits0: Bits, bits1: Bits, bits2: Bits,
                       dataStart: nat, bitLen: nat, id: nat, n0: nat, n1: nat, lbas: seq<Word>, tab: Word)
    requires Accounted(disk, nodes, bits0, dataStart, bitLen) && id in nodes && n0 == SectorsOf(nodes[id].size)
    requires forall b :: bitLen <= b < |bits0| ==> bits0[b]
    requires 0 < dataStart && dataStart + bitLen <= |disk|
    requires dataStart <= tab < dataStart + bitLen && !bits0[tab - dataStart]
    requires bits1 == bits0[tab - dataStart := true]
    requires n0 <= DIRECT_COUNT < n1 <= MAX_SECTORS == |lbas|
    requires Fresh(bits1, dataStart, lbas[n0..n1]) && Taken(bits1, bits2, dataStart, lbas[n0..n1])
    requires forall i :: nodes[id].size / SECTOR_SIZE <= i < n0 ==> lbas[i] == Lbas(disk, nodes[id])[i]
    requires forall i :: n1 <= i < MAX_SECTORS ==> lbas[i] == 0
    ensures Fresh(bits0, dataStart, [tab] + lbas[n0..n1]) && Taken(bits0, bits2, dataStart, [tab] + lbas[n0..n1])
    ensures Grown(disk, nodes[id], disk[tab := EncodeWords(lbas[DIRECT_COUNT..])],
                  nodes[id].(direct := WithDirect(nodes[id].direct, lbas, n0, n1), indirect := tab), n0, n1, lbas,
                  [tab] + lbas[n0..n1], dataStart, dataStart + bitLen)
  {
    var s := [tab] + lbas[n0..n1];
    assert Fresh(bits0, dataStart, s) && Taken(bits0, bits2, dataStart, s) by {
      AccountedNode(disk, nodes, bits0, dataStart, bitLen, id);
      TakeFirst(bits0, bits1, bits2, dataStart, tab, lbas[n0..n1]);
    }
    TakenBlocks(disk, nodes, bits0, dataStart, bitLen, s, id);
    AccountedNode(disk, nodes, bits0, dataStart, bitLen, id);
    hide *;
    GrowTakenWithTable(disk, nodes[id], n0, n1, lbas, tab, dataStart, bitLen);
  }

  lemma GrowTakenWithTable(disk: Disk, node: IdxNode, n0: nat, n1: nat, lbas: seq<Word>, tab: Word, dataStart: nat,
                           bitLen: nat)
    requires NodeUses(disk, node, n0, dataStart, dataStart + bitLen) && n0 == SectorsOf(node.size) && 0 < dataStart
    requires dataStart + bitLen <= |disk| && dataStart <= tab < dataStart + bitLen
    requires n0 <= DIRECT_COUNT < n1 <= MAX_SECTORS == |lbas|
    requires NoDup([tab] + lbas[n0..n1]) && InRange([tab] + lbas[n0..n1], dataStart, dataStart + bitLen)
    requires forall x :: x in [tab] + lbas[n0..n1] ==> x !in Blocks(disk, node, n0)
    requires forall i :: node.size / SECTOR_SIZE <= i < n0 ==> lbas[i] == Lbas(disk, node)[i]
    requires forall i :: n1 <= i < MAX_SECTORS ==> lbas[i] == 0
    ensures Grown(disk, node, disk[tab := EncodeWords(lbas[DIRECT_COUNT..])],
                  node.(direct := WithDirect(node.direct, lbas, n0, n1), indirect := tab), n0, n1, lbas,
                  [tab] + lbas[n0..n1], dataStart, dataStart + bitLen)
  {
    hide TableWords, Grown, EncodeWords, NoDup, InRange;
    GrowWithTable(disk, node, n0, n1, lbas, tab, [tab], dataStart, dataStart + bitLen);
  }

  /**
   An append changes only sectors of its own node and of the node area, so every other live
   node keeps its blocks and its content, and the accounts balance again.
   */
  lemma AppendKeepsAccounts(disk: Disk, disk': Disk, nodes: Nodes, id: nat, node': IdxNode, bits: Bits, bits': Bits,
                            dataStart: nat, bitLen: nat, s: seq<Word>)
    requires Accounted(disk, nodes, bits, dataStart, bitLen) && id in nodes
    requires IsDisk(disk) && IsDisk(disk') && |disk| == |disk'| && dataStart + bitLen <= |disk|
    requires Fresh(bits, dataStart, s) && Taken(bits, bits', dataStart, s)
    requires NodeOk(disk', node', dataStart, dataStart + bitLen)
    requires forall x :: x in Owned(disk', node') <==> x in Owned(disk, nodes[id]) || x in s
    requires forall x :: dataStart <= x < dataStart + bitLen && x !in Owned(disk, nodes[id]) && x !in s ==>
      disk'[x] == disk[x]
    ensures Accounted(disk', nodes[id := node'], bits', dataStart, bitLen)
    ensures forall j :: j in nodes && j != id ==> Content(disk', nodes[j]) == Content(disk, nodes[j])
  {
    hide TableWords, Content, Uses;
    forall j | j in nodes && j != id
      ensures Owned(disk', nodes[j]) == Owned(disk, nodes[j])
      ensures NodeOk(disk', nodes[j], dataStart, dataStart + bitLen)
      ensures Content(disk', nodes[j]) == Content(disk, nodes[j])
    {
      OwnedNotFresh(disk, nodes, bits, dataStart, bitLen, s, j);
      OwnedDisjoint(disk, nodes, bits, dataStart, bitLen, j, id);
      NodeFrame(disk, disk', nodes[j], dataStart, dataStart + bitLen);
    }
    GrowNode(disk, disk', nodes, id, node', bits, bits', dataStart, bitLen, s);
  }

  /** Sectors below the data area do not matter to the accounts or to any file. */
  lemma BelowDataIrrelevant(disk: Disk, disk': Disk, nodes: Nodes, bits: Bits, dataStart: nat, bitLen: nat)
    requires Accounted(disk, nodes, bits, dataStart, bitLen)
    requires IsDisk(disk) && IsDisk(disk') && |disk| == |disk'| && dataStart + bitLen <= |disk|
    requires forall x :: dataStart <= x < |disk| ==> disk'[x] == disk[x]
    ensures Accounted(disk', nodes, bits, dataStart, bitLen)
    ensures forall j :: j in nodes ==>
      Content(disk', nodes[j]) == Content(disk, nodes[j]) && Owned(disk', nodes[j]) == Owned(disk, nodes[j])
  {
    hide TableWords, Content, Uses;
    forall j | j in nodes
      ensures Owned(disk', nodes[j]) == Owned(disk, nodes[j])
      ensures NodeOk(disk', nodes[j], dataStart, dataStart + bitLen)
      ensures Content(disk', nodes[j]) == Content(disk, nodes[j])
    {
      assert InRange(Owned(disk, nodes[j]), dataStart, dataStart + bitLen);
      NodeFrame(disk, disk', nodes[j], dataStart, dataStart + bitLen);
    }
    assert Owners(disk', nodes) == Owners(disk, nodes);
  }

  lemma EmptyNodeOk(disk: Disk, node: IdxNode, lo: nat, hi: nat)
    requires node.size == 0 && node.direct == Zeros(DIRECT_COUNT) && node.indirect == 0
    ensures Owned(disk, node) == [] && NodeOk(disk, node, lo, hi)
  {
    assert forall i :: 0 <= i < MAX_SECTORS ==> Lbas(disk, node)[i] == 0;
    assert Owned(disk, node) == [];
  }

  /** A new empty node owns nothing. */
  lemma AddEmptyNode(disk: Disk, nodes: Nodes, id: nat, node: IdxNode, bits: Bits, dataStart: nat, bitLen: nat)
    requires Accounted(disk, nodes, bits, dataStart, bitLen) && id !in nodes
    requires node.size == 0 && node.direct == Zeros(DIRECT_COUNT) && node.indirect == 0
    ensures Accounted(disk, nodes[id := node], bits, dataStart, bitLen)
  {
    EmptyNodeOk(disk, node, dataStart, dataStart + bitLen);
    hide TableWords, Lbas, Blocks, Uses, Owned, NodeOk, HasOwner;
    var owners, owners' := Owners(disk, nodes), Owners(disk, nodes[id := node]);
    assert owners'[id] == {};
    assert owners' == owners[id := {}];
    AddEmptyOwner(owners, id, bits, dataStart, bitLen);
  }

  lemma AddEmptyOwner(owners: map<nat, set<Word>>, id: nat, bits: Bits, dataStart: nat, bitLen: nat)
    requires Balanced(owners, bits, dataStart, bitLen) && id !in owners
    ensures Balanced(owners[id := {}], bits, dataStart, bitLen)
  {
    var owners' := owners[id := {}];
    forall x ensures HasOwner(owners', x) <==> HasOwner(owners, x) {
      if HasOwner(owners, x) {
        var j :| j in owners && x in owners[j];
        assert j in owners' && x in owners'[j];
      }
    }
  }

  lemma SectorsOfMonotone(a: nat, b: nat)
    requires a <= b
    ensures SectorsOf(a) <= SectorsOf(b)
  {
  }

  /** Writing into data blocks leaves the block list of the node alone. */
  lemma LbasAfterWrite(disk: Disk, disk': Disk, node: IdxNode, node': IdxNode, n: nat, lo: nat, hi: nat)
    requires NodeUses(disk, node, n, lo, hi) && |disk'| == |disk| && hi <= |disk|
    requires node'.direct == node.direct && node'.indirect == node.indirect
    requires forall x :: 0 <= x < |disk| && x !in Lbas(disk, node)[..n] ==> disk'[x] == disk[x]
    ensures Lbas(disk', node') == Lbas(disk, node) && Blocks(disk', node', n) == Blocks(disk, node, n)
    ensures NodeUses(disk', node', n, lo, hi)
  {
    var l, b := Lbas(disk, node), Blocks(disk, node, n);
    if node.indirect != 0 {
      assert b[n] == node.indirect;
      assert forall i :: 0 <= i < n ==> b[i] == l[..n][i];
      assert node.indirect in b && node.indirect !in l[..n];
    }
    assert TableWords(disk', node'.indirect) == TableWords(disk, node.indirect);
  }

  lemma OldBytes(disk: Disk, node: IdxNode, disk': Disk, node': IdxNode, n0: nat, n1: nat,
                 lbas: seq<Word>, s: seq<Word>, lo: nat, hi: nat)
    requires Grown(disk, node, disk', node', n0, n1, lbas, s, lo, hi) && n0 == SectorsOf(node.size)
    requires |disk| == |disk'| && hi <= |disk|
    ensures forall k: nat :: k < node.size ==> ByteAt(disk', Lbas(disk', node'), k) == ByteAt(disk, Lbas(disk, node), k)
  {
    hide TableWords;
    var l, l' := Lbas(disk, node), Lbas(disk', node');
    var b := Blocks(disk', node', n1);
    forall k: nat | k < node.size ensures ByteAt(disk', l', k) == ByteAt(disk, l, k) {
      var q := k / SECTOR_SIZE;
      assert q < n0 && l'[q] == l[q];
      assert b[q] == l'[q];
      if node'.indirect != 0 {
        assert b[n1] == node'.indirect && b[q] != b[n1];
      }
    }
  }

  /** A grown node whose new blocks were written holds the old content followed by the data. */
  lemma AppendContent(disk0: Disk, node0: IdxNode, disk1: Disk, node1: IdxNode, disk2: Disk, node2: IdxNode,
                      n0: nat, n1: nat, lbas: seq<Word>, s: seq<Word>, data: seq<Byte>, lo: nat, hi: nat)
    requires Grown(disk0, node0, disk1, node1, n0, n1, lbas, s, lo, hi) && n0 == SectorsOf(node0.size)
    requires node2 == node1.(size := node2.size) && node2.size == node0.size + |data|
    requires node2.size <= MAX_FILE_SIZE && n1 == SectorsOf(node2.size)
    requires hi <= |disk0| && |disk2| == |disk0|
    requires WrittenSoFar(disk1, disk2, Lbas(disk1, node1), node0.size, data, |data|)
    requires forall x :: 0 <= x < |disk2| && x !in Lbas(disk1, node1)[..n1] ==> disk2[x] == disk1[x]
    ensures NodeOk(disk2, node2, lo, hi)
    ensures forall x :: x in Owned(disk2, node2) <==> x in Owned(disk0, node0) || x in s
    ensures Content(disk2, node2) == Content(disk0, node0) + data
    ensures forall x :: 0 <= x < |disk2| && x !in Owned(disk2, node2) && x != 0 ==> disk2[x] == disk0[x]
  {
    assert n1 <= |Lbas(disk1, node1)|;
    hide TableWords, Lbas, Uses, ByteAt, NoDup, InRange, Content, Blocks, WrittenSoFar;
    LbasAfterWrite(disk1, disk2, node1, node2, n1, lo, hi);
    BlocksListed(disk1, node1, n1);
    OldBytes(disk0, node0, disk1, node1, n0, n1, lbas, s, lo, hi);
    AppendedBytes(disk0, node0, disk1, node1, disk2, node2, data);
  }

  lemma BlocksListed(disk: Disk, node: IdxNode, n: nat)
    requires n <= |Lbas(disk, node)|
    ensures forall x :: x in Lbas(disk, node)[..n] ==> x in Blocks(disk, node, n)
    ensures node.indirect != 0 ==> node.indirect in Blocks(disk, node, n)
  {
    hide Lbas;
  }

  lemma AppendedBytes(disk0: Disk, node0: IdxNode, disk1: Disk, node1: IdxNode, disk2: Disk, node2: IdxNode,
                      data: seq<Byte>)
    requires node2.size == node0.size + |data| && Lbas(disk2, node2) == Lbas(disk1, node1)
    requires forall k: nat :: k < node0.size ==>
      ByteAt(disk1, Lbas(disk1, node1), k) == ByteAt(disk0, Lbas(disk0, node0), k)
    requires WrittenSoFar(disk1, disk2, Lbas(disk1, node1), node0.size, data, |data|)
    ensures Content(disk2, node2) == Content(disk0, node0) + data
  {
    hide Lbas, ByteAt;
    var (c, c') := (Content(disk0, node0) + data, Content(disk2, node2));
    forall k | 0 <= k < |c| ensures c'[k] == c[k] {
    }
  }

  lemma NodeShape(disk: Disk, nodes: Nodes, bits: Bits, dataStart: nat, bitLen: nat, id: nat)
    requires Accounted(disk, nodes, bits, dataStart, bitLen) && id in nodes
    ensures |nodes[id].direct| == DIRECT_COUNT && nodes[id].size <= MAX_FILE_SIZE
    ensures |Lbas(disk, nodes[id])| == MAX_SECTORS
    ensures forall i :: 0 <= i < MAX_SECTORS ==> (Lbas(disk, nodes[id])[i] != 0 <==> i < SectorsOf(nodes[id].size))
    ensures forall i :: 0 <= i < DIRECT_COUNT ==> Lbas(disk, nodes[id])[i] == nodes[id].direct[i]
    ensures nodes[id].indirect != 0 <==> SectorsOf(nodes[id].size) > DIRECT_COUNT
    ensures InRange(Owned(disk, nodes[id]), dataStart, dataStart + bitLen)
    ensures forall i :: 0 <= i < SectorsOf(nodes[id].size) && i < MAX_SECTORS ==>
      dataStart <= Lbas(disk, nodes[id])[i] < dataStart + bitLen
    ensures nodes[id].indirect != 0 ==> dataStart <= nodes[id].indirect < dataStart + bitLen
    ensures forall x :: x != 0 ==>
      (x in Owned(disk, nodes[id]) <==> x in Lbas(disk, nodes[id]) || x == nodes[id].indirect)
  {
    hide TableWords, HasOwner, NoDup;
    var node := nodes[id];
    var l, n := Lbas(disk, node), SectorsOf(node.size);
    var b := Blocks(disk, node, n);
    assert forall i :: 0 <= i < n ==> b[i] == l[i];
    assert forall i :: 0 <= i < n ==> b[i] in b;
    assert node.indirect != 0 ==> node.indirect in b;
    forall x | x != 0 ensures x in b <==> x in l || x == node.indirect {
      if x in l {
        var i :| 0 <= i < |l| && l[i] == x;
        assert i < n;
      }
    }
  }

  /** A stretch of a file that lies in one block is a stretch of that block's sector. */
  lemma ContentChunk(disk: Disk, node: IdxNode, pos: nat, count: nat)
    requires IsDisk(disk) && pos + count <= node.size && pos % SECTOR_SIZE + count <= SECTOR_SIZE
    requires pos / SECTOR_SIZE < |Lbas(disk, node)| && Lbas(disk, node)[pos / SECTOR_SIZE] < |disk|
    ensures Content(disk, node)[pos..pos + count]
         == disk[Lbas(disk, node)[pos / SECTOR_SIZE]][pos % SECTOR_SIZE..pos % SECTOR_SIZE + count]
  {
    hide Lbas;
    var (q, r) := (pos / SECTOR_SIZE, pos % SECTOR_SIZE);
    var sector := disk[Lbas(disk, node)[q]];
    var (c, d) := (Content(disk, node)[pos..pos + count], sector[r..r + count]);
    forall k | 0 <= k < count ensures c[k] == d[k] {
      assert (pos + k) / SECTOR_SIZE == q && (pos + k) % SECTOR_SIZE == r + k;
    }
  }
}
