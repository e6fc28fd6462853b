/** The heap: pages cut into blocks of one size, free lists of blocks, and large areas of whole pages. */
module Heaps {
  import opened Wrappers
  import opened BitRuns

  const PAGE := 4096
  /** The size of the data at the start of an arena: descriptor, count and kind. */
  const HEADER := 12
  const DESCS := 7
  const MAX_BLOCK := 1024

  /** A page of blocks with the number of free ones, or a run of pages for one large area. */
  datatype Arena = Blocks(desc: nat, count: nat) | Large(pages: nat)

  // Geometry.

  /** The block size of a descriptor: each is twice the one before. */
  function BlockSize(d: nat): (r: nat)
    ensures r >= 16
  {
    if d == 0 then 16 else 2 * BlockSize(d - 1)
  }

  lemma BlockSizes()
    ensures BlockSize(0) == 16 && BlockSize(1) == 32 && BlockSize(2) == 64 && BlockSize(3) == 128
    ensures BlockSize(4) == 256 && BlockSize(5) == 512 && BlockSize(6) == MAX_BLOCK
  {
  }

  function PerArena(d: nat): nat {
    Quotient(PAGE - HEADER, BlockSize(d))
  }

  function Quotient(a: nat, b: nat): nat
    requires b > 0
  {
    a / b
  }

  /** The address of block `i` of the arena at page `p`. */
  function BlockAt(p: nat, d: nat, i: nat): nat {
    p * PAGE + HEADER + i * BlockSize(d)
  }

  /** Blocks lie one after the other within their page. */
  lemma BlockGeometry(p: nat, d: nat, i: nat)
    requires i < PerArena(d)
    ensures BlockAt(p, d, i) / PAGE == p && p * PAGE + HEADER <= BlockAt(p, d, i)
    ensures BlockAt(p, d, i) + BlockSize(d) <= (p + 1) * PAGE
  {
    Product(i + 1, PerArena(d), BlockSize(d));
    assert PerArena(d) * BlockSize(d) <= PAGE - HEADER;
    assert (i + 1) * BlockSize(d) == i * BlockSize(d) + BlockSize(d);
  }

  /** Block `i` lies behind the 12-byte header and `i` blocks; a page holds as many blocks as fit behind it. */
  lemma BlockPlaces(p: nat, d: nat, i: nat)
    ensures BlockAt(p, d, i) == p * 4096 + 12 + i * BlockSize(d)
    ensures PerArena(d) * BlockSize(d) <= 4096 - 12 < (PerArena(d) + 1) * BlockSize(d)
  {
    var n := BlockSize(d);
    hide BlockSize;
    assert 4084 == 4084 / n * n + 4084 % n;
  }

  lemma Product(a: nat, b: nat, n: nat)
    requires a <= b
    ensures a * n <= b * n
  {
  }

  lemma BlocksApart(p: nat, d: nat, i: nat, j: nat)
    requires i < j
    ensures BlockAt(p, d, i) + BlockSize(d) <= BlockAt(p, d, j)
  {
    Product(i + 1, j, BlockSize(d));
    assert (i + 1) * BlockSize(d) == i * BlockSize(d) + BlockSize(d);
  }

  lemma BlockInjective(p: nat, d: nat, i: nat, j: nat)
    requires BlockAt(p, d, i) == BlockAt(p, d, j)
    ensures i == j
  {
    if i < j {
      BlocksApart(p, d, i, j);
    } else if j < i {
      BlocksApart(p, d, j, i);
    }
  }

  ghost predicate IsBlock(p: nat, d: nat, a: nat) {
    exists i: nat :: i < PerArena(d) && a == BlockAt(p, d, i)
  }

  /** The smallest descriptor whose blocks are large enough. */
  ghost predicate IsMinDesc(size: nat, d: nat) {
    d < DESCS && size <= BlockSize(d) && forall e: nat :: e < d ==> BlockSize(e) < size
  }

  method GetMinDesc(size: nat) returns (d: nat)
    requires size <= MAX_BLOCK
    ensures IsMinDesc(size, d)
  {
    BlockSizes();
    d := 0;
    while size > BlockSize(d)
      invariant d < DESCS
      invariant forall e: nat :: e < d ==> BlockSize(e) < size
      decreases DESCS - d
    {
      d := d + 1;
    }
  }

  // Free lists.

  ghost predicate NoDuplicates(list: seq<nat>) {
    forall i, j :: 0 <= i < j < |list| ==> list[i] != list[j]
  }

  /** How many of the first `n` blocks of an arena are in the list. */
  ghost function CountIn(list: seq<nat>, p: nat, d: nat, n: nat): (c: nat)
    ensures c <= n
  {
    if n == 0 then 0 else CountIn(list, p, d, n - 1) + if BlockAt(p, d, n - 1) in list then 1 else 0
  }

  lemma {:induction false} CountSame(list: seq<nat>, list': seq<nat>, p: nat, d: nat, n: nat)
    requires forall i: nat :: i < n ==> (BlockAt(p, d, i) in list <==> BlockAt(p, d, i) in list')
    ensures CountIn(list', p, d, n) == CountIn(list, p, d, n)
  {
    if n > 0 {
      CountSame(list, list', p, d, n - 1);
    }
  }

  /** One more block of the arena in the list is one more counted. */
  lemma {:induction false} CountOneMore(list: seq<nat>, list': seq<nat>, p: nat, d: nat, n: nat, i: nat)
    requires i < n && BlockAt(p, d, i) !in list && BlockAt(p, d, i) in list'
    requires forall j: nat :: j < n && j != i ==> (BlockAt(p, d, j) in list <==> BlockAt(p, d, j) in list')
    ensures CountIn(list', p, d, n) == CountIn(list, p, d, n) + 1
  {
    if i == n - 1 {
      CountSame(list, list', p, d, n - 1);
    } else {
      CountOneMore(list, list', p, d, n - 1, i);
    }
  }

  /** The count reaches the number of blocks exactly when all of them are in the list. */
  lemma {:induction false} CountFull(list: seq<nat>, p: nat, d: nat, n: nat)
    ensures CountIn(list, p, d, n) == n <==> forall i: nat :: i < n ==> BlockAt(p, d, i) in list
  {
    if n > 0 {
      CountFull(list, p, d, n - 1);
    }
  }

  // The state.

  /** The arenas by page number, the free lists, the pages of the pool from `start` on, and its free frames. */
  datatype Heap = Heap(arenas: map<nat, Arena>, free: seq<seq<nat>>, start: nat, pages: Bits, frames: nat)

  function Span(a: Arena): nat {
    if a.Blocks? then 1 else a.pages
  }

  /** The free lists hold blocks of the arenas of their descriptors. */
  ghost predicate ListsOk(h: Heap) {
    && |h.free| == DESCS
    && (forall d: nat :: d < DESCS ==> NoDuplicates(h.free[d]))
    && (forall d: nat, a: nat :: d < DESCS && a in h.free[d] ==>
         a / PAGE in h.arenas && h.arenas[a / PAGE].Blocks? && h.arenas[a / PAGE].desc == d && IsBlock(a / PAGE, d, a))
  }

  /** The count of an arena is right, and each of its blocks is either free or live. */
  ghost predicate ArenaOk(h: Heap, live: map<nat, nat>, p: nat, a: Arena)
    requires |h.free| == DESCS
  {
    match a
    case Blocks(d, c) =>
      && d < DESCS && c == CountIn(h.free[d], p, d, PerArena(d))
      && forall i: nat :: i < PerArena(d) ==> (BlockAt(p, d, i) in h.free[d] <==> BlockAt(p, d, i) !in live)
    case Large(n) => n > 0 && p * PAGE + HEADER in live
  }

  ghost predicate ArenasOk(h: Heap, live: map<nat, nat>)
    requires |h.free| == DESCS
  {
    forall p: nat :: p in h.arenas ==> ArenaOk(h, live, p, h.arenas[p])
  }

  /** A live area is a block, or the whole of a large arena, and large enough for what was asked. */
  ghost predicate AreaOk(h: Heap, a: nat, size: nat) {
    && a / PAGE in h.arenas
    && match h.arenas[a / PAGE]
       case Blocks(d, _) => IsBlock(a / PAGE, d, a) && size <= BlockSize(d)
       case Large(n) => a == a / PAGE * PAGE + HEADER && HEADER + size <= n * PAGE
  }

  ghost predicate LiveOk(h: Heap, live: map<nat, nat>) {
    forall a: nat :: a in live ==> AreaOk(h, a, live[a])
  }

  ghost predicate Owns(h: Heap, p: nat, k: nat) {
    p in h.arenas && p <= h.start + k < p + Span(h.arenas[p])
  }

  /** The pages in use are those of others, `base`, and those of the arenas, which do not overlap. */
  ghost predicate PagesOk(h: Heap, base: Bits) {
    && |base| == |h.pages|
    && (forall p: nat :: p in h.arenas ==> h.start <= p && p + Span(h.arenas[p]) <= h.start + |h.pages|)
    && (forall p: nat, k: nat :: k < |base| && Owns(h, p, k) ==> h.pages[k] && !base[k])
    && (forall k: nat :: k < |base| && h.pages[k] && !base[k] ==> exists p: nat :: Owns(h, p, k))
    && (forall k: nat :: k < |base| && base[k] ==> h.pages[k])
    && (forall p: nat, q: nat, k: nat :: k < |base| && Owns(h, p, k) && Owns(h, q, k) ==> p == q)
  }

  /** `spare` is how many more frames than pages there are: each page in use has one. */
  ghost predicate Loose(h: Heap, live: map<nat, nat>, base: Bits, spare: int) {
    && ListsOk(h) && ArenasOk(h, live) && LiveOk(h, live) && PagesOk(h, base)
    && h.frames - CountFree(h.pages) == spare
  }

  /** No arena has only free blocks. */
  ghost predicate NoneFree(h: Heap) {
    forall p: nat :: p in h.arenas && h.arenas[p].Blocks? ==> h.arenas[p].count < PerArena(h.arenas[p].desc)
  }

  ghost predicate Ok(h: Heap, live: map<nat, nat>, base: Bits, spare: int) {
    Loose(h, live, base, spare) && NoneFree(h)
  }

  // What the invariant means.

  /** Live areas are disjoint, and lie within pages of their arenas. */
  lemma LiveAreasDisjoint(h: Heap, live: map<nat, nat>, base: Bits, spare: int, a: nat, b: nat)
    requires Ok(h, live, base, spare) && a in live && b in live && a != b
    ensures a + live[a] <= b || b + live[b] <= a
  {
    var (p, q) := (a / PAGE, b / PAGE);
    hide ArenasOk, ListsOk, NoneFree, BlockAt, BlockSize, CountIn, PerArena;
    assert AreaOk(h, a, live[a]) && AreaOk(h, b, live[b]);
    AreaInSpan(h, a, live[a]);
    AreaInSpan(h, b, live[b]);
    if p == q {
      SameArena(h, a, live[a], b, live[b]);
    } else {
      SpansApart(h, base, p, q);
      if p < q {
        Product(p + Span(h.arenas[p]), q, PAGE);
      } else {
        Product(q + Span(h.arenas[q]), p, PAGE);
      }
    }
  }

  lemma AreaInSpan(h: Heap, a: nat, size: nat)
    requires AreaOk(h, a, size)
    ensures var p := a / PAGE; p * PAGE <= a && a + size <= (p + Span(h.arenas[p])) * PAGE
  {
    var p := a / PAGE;
    if h.arenas[p].Blocks? {
      var i: nat :| i < PerArena(h.arenas[p].desc) && a == BlockAt(p, h.arenas[p].desc, i);
      BlockGeometry(p, h.arenas[p].desc, i);
    }
  }

  lemma SameArena(h: Heap, a: nat, m: nat, b: nat, n: nat)
    requires AreaOk(h, a, m) && AreaOk(h, b, n) && a / PAGE == b / PAGE && a != b
    ensures a + m <= b || b + n <= a
  {
    var p := a / PAGE;
    hide BlockAt, PerArena, BlockSize;
    if h.arenas[p].Blocks? {
      var d := h.arenas[p].desc;
      var i: nat :| i < PerArena(d) && a == BlockAt(p, d, i);
      var j: nat :| j < PerArena(d) && b == BlockAt(p, d, j);
      if i < j {
        BlocksApart(p, d, i, j);
      } else {
        BlocksApart(p, d, j, i);
      }
    }
  }

  lemma SpansApart(h: Heap, base: Bits, p: nat, q: nat)
    requires PagesOk(h, base) && p in h.arenas && q in h.arenas && p != q
    requires Span(h.arenas[p]) > 0 && Span(h.arenas[q]) > 0
    ensures p + Span(h.arenas[p]) <= q || q + Span(h.arenas[q]) <= p
  {
    var k := (if p < q then q else p) - h.start;
    assert p + Span(h.arenas[p]) > q && q + Span(h.arenas[q]) > p ==> Owns(h, p, k) && Owns(h, q, k);
  }

  lemma HeadArena(h: Heap, d: nat)
    requires ListsOk(h) && d < DESCS && h.free[d] != []
    ensures h.free[d][0] / PAGE in h.arenas
  {
    assert h.free[d][0] in h.free[d];
  }

  /** When everything has been freed, every arena is gone and every page and frame is back. */
  lemma AllFreed(h: Heap, base: Bits, spare: int)
    requires Ok(h, map[], base, spare)
    ensures h.arenas == map[] && h.pages == base && h.frames == spare + CountFree(base)
    ensures forall d: nat :: d < DESCS ==> h.free[d] == []
  {
    forall p: nat | p in h.arenas ensures false {
      assert ArenaOk(h, map[], p, h.arenas[p]);
      if h.arenas[p].Blocks? {
        var d := h.arenas[p].desc;
        CountFull(h.free[d], p, d, PerArena(d));
      }
    }
    assert h.arenas == map[];
    forall k: nat | k < |base| ensures h.pages[k] == base[k] {
      assert forall p: nat :: !Owns(h, p, k);
    }
    assert h.pages == base;
    forall d: nat | d < DESCS ensures h.free[d] == [] {
      if h.free[d] != [] {
        HeadArena(h, d);
      }
    }
  }

  // Pages of arenas.

  /** Which pages arenas own after one has been added or removed. */
  lemma OwnsAdded(h: Heap, h': Heap, p: nat, a: Arena, q: nat, k: nat)
    requires p !in h.arenas && h'.arenas == h.arenas[p := a] && h'.start == h.start
    ensures Owns(h', q, k) <==> Owns(h, q, k) || (q == p && p <= h.start + k < p + Span(a))
  {
  }

  lemma PagesAdd(h: Heap, base: Bits, p: nat, a: Arena, h': Heap)
    requires PagesOk(h, base) && Span(a) > 0 && h.start <= p && IsFreeRun(h.pages, p - h.start, Span(a))
    requires forall q: nat :: q in h.arenas ==> Span(h.arenas[q]) > 0
    requires h'.arenas == h.arenas[p := a] && h'.start == h.start
    requires h'.pages == Mark(h.pages, p - h.start, Span(a), true)
    ensures p !in h.arenas && PagesOk(h', base)
  {
    assert p in h.arenas ==> Owns(h, p, p - h.start);
    forall q: nat, k: nat ensures Owns(h', q, k) <==> Owns(h, q, k) || (q == p && p <= h.start + k < p + Span(a)) {
      OwnsAdded(h, h', p, a, q, k);
    }
    hide Owns, Mark;
    forall k: nat | k < |base| && h'.pages[k] && !base[k] ensures exists q: nat :: Owns(h', q, k) {
      if h.pages[k] {
        var q: nat :| Owns(h, q, k);
        assert Owns(h', q, k);
      } else {
        assert Owns(h', p, k);
      }
    }
  }

  lemma PagesRemove(h: Heap, base: Bits, p: nat, h': Heap)
    requires PagesOk(h, base) && p in h.arenas
    requires h'.arenas == h.arenas - {p} && h'.start == h.start
    requires h.start <= p && p - h.start + Span(h.arenas[p]) <= |h.pages|
    requires h'.pages == Mark(h.pages, p - h.start, Span(h.arenas[p]), false)
    ensures IsUsedRun(h.pages, p - h.start, Span(h.arenas[p])) && PagesOk(h', base)
  {
    var n := Span(h.arenas[p]);
    forall k: nat | k < |base| && p <= h.start + k < p + n ensures Owns(h, p, k) {
    }
    forall q: nat, k: nat ensures Owns(h', q, k) <==> Owns(h, q, k) && q != p {
    }
    assert forall k: nat :: k < |base| && Owns(h, p, k) ==> p <= h.start + k < p + n;
    assert forall q: nat :: q in h'.arenas ==> h'.arenas[q] == h.arenas[q];
    hide Owns, Mark, Span;
    assert IsUsedRun(h.pages, p - h.start, n) by {
      forall j | p - h.start <= j < p - h.start + n ensures h.pages[j] {
        assert Owns(h, p, j);
      }
    }
    forall k: nat | k < |base| && h'.pages[k] && !base[k] ensures exists q: nat :: Owns(h', q, k) {
      var q: nat :| Owns(h, q, k);
      assert Owns(h', q, k);
    }
    forall k: nat | k < |base| && base[k] ensures h'.pages[k] {
      assert !Owns(h, p, k);
    }
    forall q: nat, k: nat | k < |base| && Owns(h', q, k) ensures h'.pages[k] && !base[k] {
      assert Owns(h, q, k) && q != p && !Owns(h, p, k);
    }
  }

  lemma PagesSame(h: Heap, base: Bits, h': Heap)
    requires PagesOk(h, base) && h'.start == h.start && h'.pages == h.pages && h'.arenas.Keys == h.arenas.Keys
    requires forall p: nat :: p in h.arenas ==> Span(h'.arenas[p]) == Span(h.arenas[p])
    ensures PagesOk(h', base)
  {
    assert forall q: nat, k: nat :: Owns(h', q, k) <==> Owns(h, q, k);
    hide Owns, Span;
  }

  // A new arena of blocks.

  /** The blocks of an arena in order. */
  function BlockList(p: nat, d: nat, n: nat): seq<nat> {
    seq(n, i requires 0 <= i < n => BlockAt(p, d, i))
  }

  /** A page becomes an arena with all of its blocks in the free list. */
  ghost predicate ArenaAdded(h: Heap, h': Heap, p: nat, d: nat) {
    && |h.free| == DESCS && d < DESCS
    && h'.arenas == h.arenas[p := Blocks(d, PerArena(d))] && h'.start == h.start
    && h'.free == h.free[d := h.free[d] + BlockList(p, d, PerArena(d))]
    && h.start <= p && p - h.start < |h.pages| && !h.pages[p - h.start]
    && h'.pages == Mark(h.pages, p - h.start, 1, true)
    && h.frames > 0 && h'.frames == h.frames - 1
  }

  lemma SpansPositive(h: Heap, live: map<nat, nat>)
    requires |h.free| == DESCS && ArenasOk(h, live)
    ensures forall q: nat :: q in h.arenas ==> Span(h.arenas[q]) > 0
  {
    forall q: nat | q in h.arenas ensures Span(h.arenas[q]) > 0 {
      assert ArenaOk(h, live, q, h.arenas[q]);
    }
  }

  lemma ArenaAddedKeeps(h: Heap, h': Heap, live: map<nat, nat>, base: Bits, spare: int, p: nat, d: nat)
    requires Loose(h, live, base, spare) && ArenaAdded(h, h', p, d)
    ensures Loose(h', live, base, spare) && p !in h.arenas
  {
    SpansPositive(h, live);
    PagesAdd(h, base, p, Blocks(d, PerArena(d)), h');
    CountFreeMark(h.pages, p - h.start, 1, true);
    hide PagesOk, Mark, CountFree;
    NewBlocks(h, h', live, p, d);
    AddedLists(h, h', p, d);
    AddedArenas(h, h', live, p, d);
    AddedLive(h, h', live, p);
    hide ListsOk, ArenasOk, LiveOk;
  }

  /** The blocks of a new arena were in no list and are not live. */
  lemma NewBlocks(h: Heap, h': Heap, live: map<nat, nat>, p: nat, d: nat)
    requires ListsOk(h) && LiveOk(h, live) && p !in h.arenas && d < DESCS
    ensures forall i: nat :: i < PerArena(d) ==>
      BlockAt(p, d, i) / PAGE == p && BlockAt(p, d, i) !in h.free[d] && BlockAt(p, d, i) !in live
  {
    forall i: nat | i < PerArena(d)
      ensures BlockAt(p, d, i) / PAGE == p && BlockAt(p, d, i) !in h.free[d] && BlockAt(p, d, i) !in live
    {
      BlockGeometry(p, d, i);
      hide BlockAt, PerArena;
      assert BlockAt(p, d, i) in live ==> AreaOk(h, BlockAt(p, d, i), live[BlockAt(p, d, i)]);
    }
  }

  lemma AddedLists(h: Heap, h': Heap, p: nat, d: nat)
    requires ListsOk(h) && ArenaAdded(h, h', p, d) && p !in h.arenas
    requires forall i: nat :: i < PerArena(d) ==> BlockAt(p, d, i) / PAGE == p && BlockAt(p, d, i) !in h.free[d]
    ensures ListsOk(h')
  {
    hide BlockSize, PerArena, Mark;
    var n := PerArena(d);
    forall i, j | 0 <= i < j < n ensures BlockList(p, d, n)[i] != BlockList(p, d, n)[j] {
      assert BlockList(p, d, n)[i] == BlockAt(p, d, i) && BlockList(p, d, n)[j] == BlockAt(p, d, j);
      if BlockAt(p, d, i) == BlockAt(p, d, j) {
        BlockInjective(p, d, i, j);
      }
    }
    hide BlockAt;
    forall a: nat | a in h'.free[d]
      ensures a / PAGE in h'.arenas && h'.arenas[a / PAGE].Blocks?
      ensures h'.arenas[a / PAGE].desc == d && IsBlock(a / PAGE, d, a)
    {
      if a !in h.free[d] {
        var i: nat :| i < n && a == BlockAt(p, d, i);
      }
    }
    assert NoDuplicates(h'.free[d]);
  }

  lemma AddedArenas(h: Heap, h': Heap, live: map<nat, nat>, p: nat, d: nat)
    requires ListsOk(h) && ArenasOk(h, live) && ArenaAdded(h, h', p, d) && p !in h.arenas
    requires forall i: nat :: i < PerArena(d) ==> BlockAt(p, d, i) / PAGE == p && BlockAt(p, d, i) !in live
    ensures ArenasOk(h', live)
  {
    hide ListsOk, Mark;
    var n := PerArena(d);
    forall q: nat | q in h'.arenas ensures ArenaOk(h', live, q, h'.arenas[q]) {
      if q == p {
        forall i: nat | i < n ensures BlockAt(p, d, i) in h'.free[d] {
          assert BlockList(p, d, n)[i] == BlockAt(p, d, i);
        }
        CountFull(h'.free[d], p, d, n);
      } else {
        assert ArenaOk(h, live, q, h.arenas[q]);
        if h.arenas[q].Blocks? && h.arenas[q].desc == d {
          OtherPage(h.free[d], h'.free[d], p, q, d);
        }
      }
    }
  }

  /** Adding or removing the blocks of page `p` does not show on page `q`. */
  lemma OtherPage(list: seq<nat>, list': seq<nat>, p: nat, q: nat, d: nat)
    requires p != q && forall a: nat :: a / PAGE != p ==> (a in list <==> a in list')
    ensures CountIn(list', q, d, PerArena(d)) == CountIn(list, q, d, PerArena(d))
    ensures forall i: nat :: i < PerArena(d) ==> (BlockAt(q, d, i) in list <==> BlockAt(q, d, i) in list')
  {
    forall i: nat | i < PerArena(d) ensures BlockAt(q, d, i) in list <==> BlockAt(q, d, i) in list' {
      BlockGeometry(q, d, i);
    }
    CountSame(list, list', q, d, PerArena(d));
  }

  lemma AddedLive(h: Heap, h': Heap, live: map<nat, nat>, p: nat)
    requires LiveOk(h, live) && p !in h.arenas && p in h'.arenas && h'.arenas == h.arenas[p := h'.arenas[p]]
    ensures LiveOk(h', live)
  {
    hide IsBlock, BlockSize;
    forall a: nat | a in live ensures AreaOk(h', a, live[a]) {
      assert AreaOk(h, a, live[a]);
    }
  }

  // Taking a block.

  /** The first free block of descriptor `d` leaves its list. */
  ghost predicate BlockTaken(h: Heap, h': Heap, d: nat, a: nat) {
    && |h.free| == DESCS && d < DESCS && h.free[d] != [] && a == h.free[d][0]
    && a / PAGE in h.arenas && h.arenas[a / PAGE].Blocks? && h.arenas[a / PAGE].count > 0
    && h' == h.(free := h.free[d := h.free[d][1..]],
                arenas := h.arenas[a / PAGE := h.arenas[a / PAGE].(count := h.arenas[a / PAGE].count - 1)])
  }

  /** The arena of a free block counts at least that block. */
  lemma FreeBlockCounted(h: Heap, live: map<nat, nat>, d: nat, a: nat)
    requires ListsOk(h) && ArenasOk(h, live) && d < DESCS && a in h.free[d]
    ensures a / PAGE in h.arenas && h.arenas[a / PAGE].Blocks? && h.arenas[a / PAGE].desc == d
    ensures h.arenas[a / PAGE].count > 0 && a !in live
  {
    var p := a / PAGE;
    assert ArenaOk(h, live, p, h.arenas[p]);
    var i: nat :| i < PerArena(d) && a == BlockAt(p, d, i);
    hide BlockAt, PerArena;
    CountPositive(h.free[d], p, d, PerArena(d), i);
  }

  lemma {:induction false} CountPositive(list: seq<nat>, p: nat, d: nat, n: nat, i: nat)
    requires i < n && BlockAt(p, d, i) in list
    ensures CountIn(list, p, d, n) > 0
  {
    if i < n - 1 {
      CountPositive(list, p, d, n - 1, i);
    }
  }

  lemma BlockTakenKeeps(h: Heap, h': Heap, live: map<nat, nat>, base: Bits, spare: int, d: nat, a: nat, size: nat)
    requires Loose(h, live, base, spare) && BlockTaken(h, h', d, a) && size <= BlockSize(d)
    ensures a !in live && Loose(h', live[a := size], base, spare)
  {
    assert a in h.free[d];
    FreeBlockCounted(h, live, d, a);
    PagesSame(h, base, h');
    hide PagesOk, CountFree;
    Tail(h.free[d]);
    TakenLists(h, h', d, a);
    TakenArenas(h, h', live, d, a, size);
    TakenLive(h, h', live, d, a, size);
    hide ListsOk, ArenasOk, LiveOk;
  }

  lemma Tail(list: seq<nat>)
    requires NoDuplicates(list) && list != []
    ensures NoDuplicates(list[1..]) && list[0] !in list[1..]
    ensures forall a: nat :: a in list <==> a in list[1..] || a == list[0]
  {
  }

  lemma TakenLists(h: Heap, h': Heap, d: nat, a: nat)
    requires ListsOk(h) && BlockTaken(h, h', d, a)
    ensures ListsOk(h')
  {
    Tail(h.free[d]);
    hide NoDuplicates, IsBlock;
  }

  lemma TakenArenas(h: Heap, h': Heap, live: map<nat, nat>, d: nat, a: nat, size: nat)
    requires ListsOk(h) && ArenasOk(h, live) && BlockTaken(h, h', d, a)
    ensures ArenasOk(h', live[a := size])
  {
    Tail(h.free[d]);
    assert a in h.free[d];
    hide NoDuplicates, BlockAt, PerArena, ListsOk;
    forall q: nat | q in h'.arenas ensures ArenaOk(h', live[a := size], q, h'.arenas[q]) {
      assert ArenaOk(h, live, q, h.arenas[q]);
      if q == a / PAGE {
        TakenArena(h, h', live, d, a, size);
      } else if h.arenas[q].Blocks? {
        var e := h.arenas[q].desc;
        PageBlocks(q, e);
        if e == d {
          OtherPage(h.free[d], h'.free[d], a / PAGE, q, d);
        }
      }
    }
  }

  lemma TakenArena(h: Heap, h': Heap, live: map<nat, nat>, d: nat, a: nat, size: nat)
    requires ListsOk(h) && BlockTaken(h, h', d, a) && ArenaOk(h, live, a / PAGE, h.arenas[a / PAGE])
    ensures ArenaOk(h', live[a := size], a / PAGE, h'.arenas[a / PAGE])
  {
    var p := a / PAGE;
    Tail(h.free[d]);
    assert a in h.free[d];
    hide NoDuplicates, BlockAt, PerArena;
    var i: nat :| i < PerArena(d) && a == BlockAt(p, d, i);
    OthersIn(h.free[d], h'.free[d], p, d, i, a);
    CountOneMore(h'.free[d], h.free[d], p, d, PerArena(d), i);
  }

  /** Only block `i` differs. */
  lemma OthersIn(list: seq<nat>, list': seq<nat>, p: nat, d: nat, i: nat, a: nat)
    requires a == BlockAt(p, d, i) && forall b: nat :: b != a ==> (b in list <==> b in list')
    ensures forall j: nat :: j < PerArena(d) && j != i ==>
      BlockAt(p, d, j) != a && (BlockAt(p, d, j) in list <==> BlockAt(p, d, j) in list')
  {
    forall j: nat | j < PerArena(d) && j != i ensures BlockAt(p, d, j) != a {
      if BlockAt(p, d, j) == a {
        BlockInjective(p, d, i, j);
      }
    }
  }

  lemma PageBlocks(q: nat, d: nat)
    ensures forall i: nat :: i < PerArena(d) ==> BlockAt(q, d, i) / PAGE == q
  {
    forall i: nat | i < PerArena(d) ensures BlockAt(q, d, i) / PAGE == q {
      BlockGeometry(q, d, i);
    }
  }

  lemma TakenLive(h: Heap, h': Heap, live: map<nat, nat>, d: nat, a: nat, size: nat)
    requires ListsOk(h) && LiveOk(h, live) && BlockTaken(h, h', d, a) && size <= BlockSize(d)
    ensures LiveOk(h', live[a := size])
  {
    assert a in h.free[d];
    hide IsBlock, NoDuplicates;
    var live' := live[a := size];
    forall b: nat | b in live' ensures AreaOk(h', b, live'[b]) {
      assert b != a ==> AreaOk(h, b, live[b]);
    }
  }

  // Returning a block.

  /** A live block goes to the end of its list. */
  ghost predicate BlockReturned(h: Heap, h': Heap, live: map<nat, nat>, a: nat) {
    && |h.free| == DESCS && a in live && a / PAGE in h.arenas && h.arenas[a / PAGE].Blocks?
    && var d := h.arenas[a / PAGE].desc;
      d < DESCS && h' == h.(free := h.free[d := h.free[d] + [a]],
                            arenas := h.arenas[a / PAGE := h.arenas[a / PAGE].(count := h.arenas[a / PAGE].count + 1)])
  }

  lemma BlockReturnedKeeps(h: Heap, h': Heap, live: map<nat, nat>, base: Bits, spare: int, a: nat)
    requires Loose(h, live, base, spare) && BlockReturned(h, h', live, a)
    ensures Loose(h', live - {a}, base, spare)
  {
    PagesSame(h, base, h');
    hide PagesOk, CountFree;
    LiveNotFree(h, live, a);
    ReturnedLists(h, h', live, a);
    ReturnedArenas(h, h', live, a);
    ReturnedLive(h, h', live, a);
    hide ListsOk, ArenasOk, LiveOk;
  }

  lemma LiveNotFree(h: Heap, live: map<nat, nat>, a: nat)
    requires ListsOk(h) && ArenasOk(h, live) && LiveOk(h, live) && a in live && a / PAGE in h.arenas
    requires h.arenas[a / PAGE].Blocks?
    ensures var d := h.arenas[a / PAGE].desc; d < DESCS && a !in h.free[d] && IsBlock(a / PAGE, d, a)
  {
    var p := a / PAGE;
    assert ArenaOk(h, live, p, h.arenas[p]);
    assert AreaOk(h, a, live[a]);
  }

  lemma ReturnedLists(h: Heap, h': Heap, live: map<nat, nat>, a: nat)
    requires ListsOk(h) && BlockReturned(h, h', live, a)
    requires var d := h.arenas[a / PAGE].desc; a !in h.free[d] && IsBlock(a / PAGE, d, a)
    ensures ListsOk(h')
  {
    var d := h.arenas[a / PAGE].desc;
    assert NoDuplicates(h'.free[d]);
    hide NoDuplicates, IsBlock;
    forall e: nat, b: nat | e < DESCS && b in h'.free[e]
      ensures b / PAGE in h'.arenas && h'.arenas[b / PAGE].Blocks? && h'.arenas[b / PAGE].desc == e
      ensures IsBlock(b / PAGE, e, b)
    {
      assert b in h.free[e] || (e == d && b == a);
    }
  }

  lemma ReturnedArenas(h: Heap, h': Heap, live: map<nat, nat>, a: nat)
    requires ListsOk(h) && ArenasOk(h, live) && BlockReturned(h, h', live, a)
    requires var d := h.arenas[a / PAGE].desc; a !in h.free[d] && IsBlock(a / PAGE, d, a)
    ensures ArenasOk(h', live - {a})
  {
    var (p, d) := (a / PAGE, h.arenas[a / PAGE].desc);
    hide NoDuplicates, BlockAt, PerArena;
    forall q: nat | q in h'.arenas ensures ArenaOk(h', live - {a}, q, h'.arenas[q]) {
      assert ArenaOk(h, live, q, h.arenas[q]);
      if q == p {
        var i: nat :| i < PerArena(d) && a == BlockAt(p, d, i);
        OthersIn(h.free[d], h'.free[d], p, d, i, a);
        CountOneMore(h.free[d], h'.free[d], p, d, PerArena(d), i);
      } else if h.arenas[q].Blocks? {
        var e := h.arenas[q].desc;
        PageBlocks(q, e);
        if e == d {
          OtherPage(h.free[d], h'.free[d], p, q, d);
        }
      } else {
        assert q * PAGE + HEADER != a by {
          HeaderPage(q);
        }
      }
    }
  }

  lemma HeaderPage(q: nat)
    ensures (q * PAGE + HEADER) / PAGE == q
  {
  }

  lemma ReturnedLive(h: Heap, h': Heap, live: map<nat, nat>, a: nat)
    requires LiveOk(h, live) && BlockReturned(h, h', live, a)
    ensures LiveOk(h', live - {a})
  {
    hide IsBlock;
    forall b: nat | b in live - {a} ensures AreaOk(h', b, (live - {a})[b]) {
      assert AreaOk(h, b, live[b]);
    }
  }

  // Removing an arena.

  /** The list without `a`. */
  function Detached(list: seq<nat>, a: nat): seq<nat> {
    if list == [] then [] else if list[0] == a then list[1..] else [list[0]] + Detached(list[1..], a)
  }

  /** The list without the first `n` blocks of an arena. */
  function WithoutBlocks(list: seq<nat>, p: nat, d: nat, n: nat): seq<nat> {
    if n == 0 then list else Detached(WithoutBlocks(list, p, d, n - 1), BlockAt(p, d, n - 1))
  }

  lemma {:induction false} DetachedMembers(list: seq<nat>, a: nat)
    requires NoDuplicates(list)
    ensures NoDuplicates(Detached(list, a)) && forall b: nat :: b in Detached(list, a) <==> b in list && b != a
  {
    if list != [] && list[0] != a {
      Tail(list);
      DetachedMembers(list[1..], a);
      var rest := Detached(list[1..], a);
      assert list[0] !in rest;
      assert NoDuplicates([list[0]] + rest);
    } else if list != [] {
      Tail(list);
    }
  }

  /** Somewhere in the list, `x` is in front of `y`. */
  ghost predicate InFront(list: seq<nat>, x: nat, y: nat) {
    exists i, j :: 0 <= i < j < |list| && list[i] == x && list[j] == y
  }

  lemma {:induction false} DetachedOrder(list: seq<nat>, a: nat, x: nat, y: nat)
    requires InFront(Detached(list, a), x, y)
    ensures InFront(list, x, y)
  {
    var i, j :| 0 <= i < j < |Detached(list, a)| && Detached(list, a)[i] == x && Detached(list, a)[j] == y;
    if list[0] == a {
      assert list[i + 1] == x && list[j + 1] == y;
    } else if i > 0 {
      var (rest, tail) := (Detached(list[1..], a), list[1..]);
      assert rest[i - 1] == x && rest[j - 1] == y;
      DetachedOrder(tail, a, x, y);
      var m, n :| 0 <= m < n < |tail| && tail[m] == x && tail[n] == y;
      assert list[m + 1] == x && list[n + 1] == y;
    } else {
      var (rest, tail) := (Detached(list[1..], a), list[1..]);
      assert rest[j - 1] == y;
      DetachedFrom(tail, a, j - 1);
      var n :| 0 <= n < |tail| && tail[n] == y;
      assert list[0] == x && list[n + 1] == y;
    }
  }

  lemma {:induction false} DetachedFrom(list: seq<nat>, a: nat, k: nat)
    requires k < |Detached(list, a)|
    ensures Detached(list, a)[k] in list
  {
    if list[0] != a && k > 0 {
      DetachedFrom(list[1..], a, k - 1);
    }
  }

  /** The blocks of other arenas stay in their order. */
  lemma {:induction false} WithoutBlocksOrder(list: seq<nat>, p: nat, d: nat, n: nat, x: nat, y: nat)
    requires InFront(WithoutBlocks(list, p, d, n), x, y)
    ensures InFront(list, x, y)
  {
    if n > 0 {
      DetachedOrder(WithoutBlocks(list, p, d, n - 1), BlockAt(p, d, n - 1), x, y);
      WithoutBlocksOrder(list, p, d, n - 1, x, y);
    }
  }

  lemma {:induction false} WithoutBlocksMembers(list: seq<nat>, p: nat, d: nat, n: nat)
    requires NoDuplicates(list)
    ensures NoDuplicates(WithoutBlocks(list, p, d, n))
    ensures forall b: nat ::
      b in WithoutBlocks(list, p, d, n) <==> b in list && forall i: nat :: i < n ==> b != BlockAt(p, d, i)
  {
    if n > 0 {
      WithoutBlocksMembers(list, p, d, n - 1);
      DetachedMembers(WithoutBlocks(list, p, d, n - 1), BlockAt(p, d, n - 1));
      hide NoDuplicates, BlockAt;
      forall b: nat
        ensures b in WithoutBlocks(list, p, d, n) <==> b in list && forall i: nat :: i < n ==> b != BlockAt(p, d, i)
      {
        assert (forall i: nat :: i < n ==> b != BlockAt(p, d, i)) <==>
          (b != BlockAt(p, d, n - 1) && forall i: nat :: i < n - 1 ==> b != BlockAt(p, d, i));
      }
    }
  }

  /** An arena of free blocks leaves its list, and its page goes back. */
  ghost predicate ArenaRemoved(h: Heap, h': Heap, p: nat, d: nat) {
    && |h.free| == DESCS && d < DESCS && p in h.arenas && h.arenas[p] == Blocks(d, PerArena(d))
    && h'.arenas == h.arenas - {p} && h'.start == h.start
    && h'.free == h.free[d := WithoutBlocks(h.free[d], p, d, PerArena(d))]
    && h.start <= p && p - h.start < |h.pages| && h'.pages == Mark(h.pages, p - h.start, 1, false)
    && h'.frames == h.frames + 1
  }

  lemma ArenaRemovedKeeps(h: Heap, h': Heap, live: map<nat, nat>, base: Bits, spare: int, p: nat, d: nat)
    requires Loose(h, live, base, spare) && ArenaRemoved(h, h', p, d)
    ensures Loose(h', live, base, spare)
  {
    PagesRemove(h, base, p, h');
    CountFreeMark(h.pages, p - h.start, 1, false);
    hide PagesOk, Mark, CountFree;
    WithoutBlocksMembers(h.free[d], p, d, PerArena(d));
    assert ArenaOk(h, live, p, h.arenas[p]);
    CountFull(h.free[d], p, d, PerArena(d));
    hide ArenasOk, NoDuplicates;
    RemovedLists(h, h', p, d);
    RemovedArenas(h, h', live, p, d);
    RemovedLive(h, h', live, p);
  }

  lemma RemovedLists(h: Heap, h': Heap, p: nat, d: nat)
    requires ListsOk(h) && ArenaRemoved(h, h', p, d)
    requires NoDuplicates(h'.free[d])
    requires forall b: nat ::
      b in h'.free[d] <==> b in h.free[d] && forall i: nat :: i < PerArena(d) ==> b != BlockAt(p, d, i)
    ensures ListsOk(h')
  {
    hide NoDuplicates, BlockAt, PerArena, Mark, WithoutBlocks;
    forall e: nat, b: nat | e < DESCS && b in h'.free[e] ensures b in h.free[e] && b / PAGE != p {
      assert b in h.free[e];
      assert b / PAGE == p ==> e == d && IsBlock(p, d, b);
    }
  }

  lemma RemovedArenas(h: Heap, h': Heap, live: map<nat, nat>, p: nat, d: nat)
    requires ListsOk(h) && ArenasOk(h, live) && ArenaRemoved(h, h', p, d)
    requires forall b: nat ::
      b in h'.free[d] <==> b in h.free[d] && forall i: nat :: i < PerArena(d) ==> b != BlockAt(p, d, i)
    ensures ArenasOk(h', live)
  {
    PageBlocks(p, d);
    assert forall b: nat :: b / PAGE != p ==> (b in h.free[d] <==> b in h'.free[d]);
    hide ListsOk, BlockAt, PerArena, Mark, WithoutBlocks;
    forall q: nat | q in h'.arenas ensures ArenaOk(h', live, q, h'.arenas[q]) {
      assert h'.arenas[q] == h.arenas[q] && q != p;
      assert ArenaOk(h, live, q, h.arenas[q]);
      if h.arenas[q].Blocks? && h.arenas[q].desc == d {
        OtherPage(h.free[d], h'.free[d], p, q, d);
      }
    }
  }

  /** Nothing live lies in an arena of free blocks. */
  lemma RemovedLive(h: Heap, h': Heap, live: map<nat, nat>, p: nat)
    requires LiveOk(h, live) && p in h.arenas && h.arenas[p].Blocks? && h'.arenas == h.arenas - {p}
    requires var d := h.arenas[p].desc; forall i: nat :: i < PerArena(d) ==> BlockAt(p, d, i) !in live
    ensures LiveOk(h', live)
  {
    hide BlockAt, PerArena;
    forall a: nat | a in live ensures AreaOk(h', a, live[a]) {
      assert AreaOk(h, a, live[a]);
      assert a / PAGE != p;
      assert h'.arenas[a / PAGE] == h.arenas[a / PAGE];
    }
  }

  // Large areas.

  ghost predicate LargeAdded(h: Heap, h': Heap, p: nat, n: nat) {
    && n > 0 && h.start <= p && IsFreeRun(h.pages, p - h.start, n) && h.frames >= n
    && h' == h.(arenas := h.arenas[p := Large(n)], pages := Mark(h.pages, p - h.start, n, true), frames := h.frames - n)
  }

  lemma LargeAddedKeeps(h: Heap, h': Heap, live: map<nat, nat>, base: Bits, spare: int, p: nat, n: nat, size: nat)
    requires Loose(h, live, base, spare) && LargeAdded(h, h', p, n) && HEADER + size <= n * PAGE
    ensures p !in h.arenas && p * PAGE + HEADER !in live && Loose(h', live[p * PAGE + HEADER := size], base, spare)
  {
    var a := p * PAGE + HEADER;
    SpansPositive(h, live);
    PagesAdd(h, base, p, Large(n), h');
    CountFreeMark(h.pages, p - h.start, n, true);
    hide PagesOk, Mark, CountFree;
    HeaderPage(p);
    assert a in live ==> AreaOk(h, a, live[a]);
    assert ListsOk(h') by {
      hide NoDuplicates, IsBlock;
    }
    var live' := live[a := size];
    LargeAddedArenas(h, h', live, p, n, size);
    hide ListsOk, IsBlock, ArenasOk;
    forall b: nat | b in live' ensures AreaOk(h', b, live'[b]) {
      assert b != a ==> AreaOk(h, b, live[b]);
    }
  }

  lemma LargeAddedArenas(h: Heap, h': Heap, live: map<nat, nat>, p: nat, n: nat, size: nat)
    requires |h.free| == DESCS && ArenasOk(h, live) && LargeAdded(h, h', p, n) && p !in h.arenas
    ensures ArenasOk(h', live[p * PAGE + HEADER := size])
  {
    HeaderPage(p);
    hide Mark, BlockAt, PerArena;
    forall q: nat | q in h'.arenas ensures ArenaOk(h', live[p * PAGE + HEADER := size], q, h'.arenas[q]) {
      if q != p {
        assert ArenaOk(h, live, q, h.arenas[q]);
        if h.arenas[q].Blocks? {
          PageBlocks(q, h.arenas[q].desc);
        }
      }
    }
  }

  ghost predicate LargeRemoved(h: Heap, h': Heap, p: nat) {
    && p in h.arenas && h.arenas[p].Large? && h.start <= p && p - h.start + h.arenas[p].pages <= |h.pages|
    && h' == h.(arenas := h.arenas - {p}, pages := Mark(h.pages, p - h.start, h.arenas[p].pages, false),
                frames := h.frames + h.arenas[p].pages)
  }

  lemma LargeRemovedKeeps(h: Heap, h': Heap, live: map<nat, nat>, base: Bits, spare: int, p: nat)
    requires Loose(h, live, base, spare) && LargeRemoved(h, h', p)
    ensures Loose(h', live - {p * PAGE + HEADER}, base, spare)
  {
    assert |h.free| == DESCS;
    hide PagesOk, Mark, CountFree, ListsOk, ArenasOk, LiveOk;
    PagesRemove(h, base, p, h');
    CountFreeMark(h.pages, p - h.start, h.arenas[p].pages, false);
    LargeRemovedLists(h, h', p);
    LargeRemovedArenas(h, h', live, p);
    LargeRemovedLive(h, h', live, p);
  }

  lemma LargeRemovedLists(h: Heap, h': Heap, p: nat)
    requires ListsOk(h) && LargeRemoved(h, h', p)
    ensures ListsOk(h')
  {
    hide NoDuplicates, IsBlock, Mark;
    forall d: nat, a: nat | d < DESCS && a in h'.free[d]
      ensures a / PAGE in h'.arenas && h'.arenas[a / PAGE] == h.arenas[a / PAGE]
    {
      assert a in h.free[d] && a / PAGE != p;
    }
  }

  lemma LargeRemovedLive(h: Heap, h': Heap, live: map<nat, nat>, p: nat)
    requires LiveOk(h, live) && LargeRemoved(h, h', p)
    ensures LiveOk(h', live - {p * PAGE + HEADER})
  {
    hide IsBlock, Mark;
    var live' := live - {p * PAGE + HEADER};
    forall b: nat | b in live' ensures AreaOk(h', b, live'[b]) {
      assert AreaOk(h, b, live[b]);
      assert b / PAGE == p ==> b == p * PAGE + HEADER;
    }
  }

  lemma LargeRemovedArenas(h: Heap, h': Heap, live: map<nat, nat>, p: nat)
    requires |h.free| == DESCS && ArenasOk(h, live) && LargeRemoved(h, h', p)
    ensures ArenasOk(h', live - {p * PAGE + HEADER})
  {
    HeaderPage(p);
    hide Mark, BlockAt, PerArena;
    forall q: nat | q in h'.arenas ensures ArenaOk(h', live - {p * PAGE + HEADER}, q, h'.arenas[q]) {
      assert q != p && ArenaOk(h, live, q, h.arenas[q]);
      if h.arenas[q].Blocks? {
        PageBlocks(q, h.arenas[q].desc);
      } else {
        HeaderPage(q);
      }
    }
  }

  // The allocator.

  /** The pages of a large area. */
  function PagesFor(size: nat): (n: nat)
    ensures n * PAGE >= size + HEADER > (n - 1) * PAGE
  {
    (size + HEADER + PAGE - 1) / PAGE
  }

  /** A new arena is needed, and its pages cannot be had. */
  ghost predicate CannotGrow(h: Heap, size: nat)
    requires |h.free| == DESCS
  {
    if size > MAX_BLOCK then FindRun(h.pages, PagesFor(size)).None? || h.frames < PagesFor(size)
    else exists d: nat :: IsMinDesc(size, d) && h.free[d] == [] && FindRun(h.pages, 1).None?
  }

  /**
   How a request was served: by pages of its own, or by a block of the smallest size that
   fits, for which no page was taken while the list of free blocks had one.
   */
  ghost predicate Served(h: Heap, h': Heap, size: nat, a: nat)
    requires |h.free| == DESCS
  {
    && a / PAGE in h'.arenas
    && if size > MAX_BLOCK then
         && a / PAGE !in h.arenas && a == a / PAGE * 4096 + 12 && LargeAdded(h, h', a / PAGE, PagesFor(size))
         && FindRun(h.pages, PagesFor(size)) == Some(a / PAGE - h.start)
       else exists d: nat :: IsMinDesc(size, d) && ServedBy(h, h', d, a)
  }

  ghost predicate ServedBy(h: Heap, h': Heap, d: nat, a: nat)
    requires |h.free| == DESCS
  {
    && d < DESCS && a / PAGE in h'.arenas && h'.arenas[a / PAGE].Blocks? && h'.arenas[a / PAGE].desc == d
    && (if h.free[d] != [] then
          && a == h.free[d][0] && h'.free == h.free[d := h.free[d][1..]]
          && h'.pages == h.pages && h'.frames == h.frames && BlockTaken(h, h', d, a)
        else a / PAGE !in h.arenas && FindRun(h.pages, 1) == Some(a / PAGE - h.start) && FirstOfArena(h, h', d, a))
  }

  /** The leftmost free page was cut into blocks; the first one is `a`, and the others are listed in order. */
  ghost predicate FirstOfArena(h: Heap, h': Heap, d: nat, a: nat)
    requires |h.free| == DESCS && d < DESCS
  {
    var p := a / PAGE;
    && a == p * 4096 + 12 && PerArena(d) > 0 && h'.arenas == h.arenas[p := Blocks(d, PerArena(d) - 1)]
    && h.start <= p && p - h.start < |h.pages| && h'.pages == Mark(h.pages, p - h.start, 1, true)
    && h'.frames == h.frames - 1 && |h'.free| == DESCS && h'.free == h.free[d := h'.free[d]]
    && |h'.free[d]| == PerArena(d) - 1
    && forall i: nat :: i < |h'.free[d]| ==> h'.free[d][i] == p * 4096 + 12 + (i + 1) * BlockSize(d)
  }

  lemma FirstTaken(h: Heap, h1: Heap, h2: Heap, p: nat, d: nat, a: nat)
    requires |h.free| == DESCS && d < DESCS && h.free[d] == []
    requires ArenaAdded(h, h1, p, d) && BlockTaken(h1, h2, d, a) && a / PAGE == p
    ensures FirstOfArena(h, h2, d, a)
  {
    hide BlockSize, PerArena, Mark;
    var list := BlockList(p, d, PerArena(d));
    assert h1.free[d] == list && a == list[0] == BlockAt(p, d, 0) && h2.free[d] == list[1..];
    forall i: nat | i < |h2.free[d]| ensures h2.free[d][i] == p * 4096 + 12 + (i + 1) * BlockSize(d) {
      assert h2.free[d][i] == list[i + 1] == BlockAt(p, d, i + 1);
    }
  }

  /** How an area was taken back: its pages, or its block, and with the last block of an arena the arena. */
  ghost predicate TakenBack(h: Heap, h': Heap, live: map<nat, nat>, a: nat) {
    var p := a / PAGE;
    && p in h.arenas
    && if h.arenas[p].Large? then LargeRemoved(h, h', p)
       else exists mid: Heap :: BlockReturned(h, mid, live, a) && FullArenaRemoved(mid, h', p)
  }

  ghost predicate FullArenaRemoved(h: Heap, h': Heap, p: nat) {
    && p in h.arenas && h.arenas[p].Blocks?
    && if h.arenas[p].count == PerArena(h.arenas[p].desc) then ArenaRemoved(h, h', p, h.arenas[p].desc) else h' == h
  }

  /** What freeing leaves of the lists, arenas, pages and frames. */
  ghost predicate FreedAs(h: Heap, h': Heap, a: nat) {
    var p := a / 4096;
    && p in h.arenas && h'.start == h.start && |h'.free| == |h.free| == DESCS
    && match h.arenas[p]
       case Large(n) =>
         && h'.free == h.free && h'.arenas == h.arenas - {p} && h'.frames == h.frames + n
         && h.start <= p && p - h.start + n <= |h.pages| && h'.pages == Mark(h.pages, p - h.start, n, false)
       case Blocks(d, c) =>
         && d < DESCS && h'.free == h.free[d := h'.free[d]]
         && if c + 1 != PerArena(d) then
              && h'.free[d] == h.free[d] + [a] && h'.arenas == h.arenas[p := Blocks(d, c + 1)]
              && h'.pages == h.pages && h'.frames == h.frames
            else
              && (forall b: nat :: b in h'.free[d] <==> b in h.free[d] && b / 4096 != p)
              && (forall x: nat, y: nat :: InFront(h'.free[d], x, y) ==> InFront(h.free[d], x, y))
              && h'.arenas == h.arenas - {p} && h'.frames == h.frames + 1
              && h.start <= p && p - h.start < |h.pages| && h'.pages == Mark(h.pages, p - h.start, 1, false)
  }

  lemma TakenBackMeans(h: Heap, h': Heap, live: map<nat, nat>, base: Bits, spare: int, a: nat)
    requires Loose(h, live, base, spare) && a in live && TakenBack(h, h', live, a)
    ensures FreedAs(h, h', a)
  {
    var p := a / PAGE;
    LooseParts(h, live, base, spare);
    hide PerArena, ListsOk, ArenasOk, LiveOk, PagesOk, FreedAs, FullArenaRemoved, LargeRemoved, BlockReturned,
      CountFree;
    if h.arenas[p].Large? {
      LargeTakenBack(h, h', a);
    } else {
      var mid: Heap :| BlockReturned(h, mid, live, a) && FullArenaRemoved(mid, h', p);
      LiveNotFree(h, live, a);
      ReturnedLists(h, mid, live, a);
      BlockTakenBack(h, mid, h', live, a);
    }
  }

  lemma LargeTakenBack(h: Heap, h': Heap, a: nat)
    requires LargeRemoved(h, h', a / PAGE) && |h.free| == DESCS
    ensures FreedAs(h, h', a)
  {
  }

  lemma BlockTakenBack(h: Heap, mid: Heap, h': Heap, live: map<nat, nat>, a: nat)
    requires BlockReturned(h, mid, live, a) && FullArenaRemoved(mid, h', a / PAGE) && ListsOk(mid)
    ensures FreedAs(h, h', a)
  {
    var (p, d) := (a / PAGE, h.arenas[a / PAGE].desc);
    hide PerArena, Mark, WithoutBlocks, InFront, ListsOk;
    if h.arenas[p].count + 1 == PerArena(d) {
      ListOfOthers(h, mid, h', p, d, a);
    }
  }

  /** Without the blocks of the arena at `p`, a list has the blocks of other pages, in their order. */
  lemma ListOfOthers(h: Heap, mid: Heap, h': Heap, p: nat, d: nat, a: nat)
    requires ListsOk(mid) && d < DESCS && a / PAGE == p && |h.free| == DESCS && mid.free[d] == h.free[d] + [a]
    requires |h'.free| == DESCS && h'.free[d] == WithoutBlocks(mid.free[d], p, d, PerArena(d))
    ensures forall b: nat :: b in h'.free[d] <==> b in h.free[d] && b / PAGE != p
    ensures forall x: nat, y: nat :: InFront(h'.free[d], x, y) ==> InFront(h.free[d], x, y)
  {
    WithoutBlocksMembers(mid.free[d], p, d, PerArena(d));
    PageBlocks(p, d);
    hide NoDuplicates, BlockAt, PerArena, WithoutBlocks;
    forall b: nat ensures b in h'.free[d] <==> b in h.free[d] && b / PAGE != p {
      assert b in mid.free[d] <==> b in h.free[d] || b == a;
      if b in mid.free[d] && b / PAGE == p {
        assert IsBlock(p, d, b);
      }
    }
    forall x: nat, y: nat | InFront(h'.free[d], x, y) ensures InFront(h.free[d], x, y) {
      WithoutBlocksOrder(mid.free[d], p, d, PerArena(d), x, y);
      LastNotInFront(h.free[d], a, x, y, h'.free[d]);
    }
  }

  lemma LastNotInFront(list: seq<nat>, a: nat, x: nat, y: nat, rest: seq<nat>)
    requires InFront(list + [a], x, y) && InFront(rest, x, y) && a !in rest
    ensures InFront(list, x, y)
  {
    var i, j :| 0 <= i < j < |list + [a]| && (list + [a])[i] == x && (list + [a])[j] == y;
    assert y in rest && j < |list|;
    assert list[i] == x && list[j] == y;
  }

  lemma MinDescUnique(size: nat, d: nat, e: nat)
    requires IsMinDesc(size, d) && IsMinDesc(size, e)
    ensures d == e
  {
    hide BlockSize;
  }

  /** `Halt` is the kernel's stop when pages cannot be had for an arena. */
  datatype AllocResult = Null | Halt | Area(addr: nat)

  lemma LooseParts(h: Heap, live: map<nat, nat>, base: Bits, spare: int)
    requires Loose(h, live, base, spare)
    ensures |h.free| == DESCS
  {
  }

  lemma AddedNotEmpty(h: Heap, h': Heap, p: nat, d: nat)
    requires ArenaAdded(h, h', p, d)
    ensures h'.free[d] != [] && (h.free[d] == [] ==> h'.free[d][0] / PAGE == p)
  {
    BlockSizes();
    assert d == 0 || d == 1 || d == 2 || d == 3 || d == 4 || d == 5 || d == 6;
    assert PerArena(d) > 0;
    assert h.free[d] == [] ==> h'.free[d][0] == BlockList(p, d, PerArena(d))[0];
    BlockGeometry(p, d, 0);
  }

  /** Only the arena that has just been added may have only free blocks, and it has lost one. */
  lemma NoneFreeAfter(h: Heap, h1: Heap, h2: Heap, d: nat, a: nat)
    requires NoneFree(h) && |h.free| == DESCS && d < DESCS && BlockTaken(h1, h2, d, a)
    requires if h.free[d] != [] then h1 == h else exists p: nat :: ArenaAdded(h, h1, p, d) && h1.free[d][0] / PAGE == p
    ensures NoneFree(h2)
  {
    hide PerArena;
  }

  lemma NullNotLive(h: Heap, live: map<nat, nat>, base: Bits, spare: int)
    requires Loose(h, live, base, spare)
    ensures 0 !in live
  {
    forall a: nat | a in live ensures a >= HEADER {
      AreaAfterHeader(h, a, live[a]);
    }
  }

  lemma AreaAfterHeader(h: Heap, a: nat, size: nat)
    requires AreaOk(h, a, size)
    ensures a >= HEADER
  {
    hide PerArena, BlockSize;
  }

  /** The arena of a live area, and its place in the pool. */
  lemma LiveArea(h: Heap, live: map<nat, nat>, base: Bits, spare: int, a: nat)
    requires Loose(h, live, base, spare) && a in live
    ensures |h.free| == DESCS && a / PAGE in h.arenas
    ensures var p := a / PAGE; h.start <= p && p - h.start + Span(h.arenas[p]) <= |h.pages|
    ensures h.arenas[a / PAGE].Large? ==> a == a / PAGE * PAGE + HEADER
    ensures h.arenas[a / PAGE].Blocks? ==> h.arenas[a / PAGE].desc < DESCS
  {
    assert AreaOk(h, a, live[a]);
    assert ArenaOk(h, live, a / PAGE, h.arenas[a / PAGE]);
    hide PerArena, BlockSize;
  }

  /** All blocks of an arena that counts all of its blocks as free are in the list. */
  lemma AllListed(h: Heap, live: map<nat, nat>, base: Bits, spare: int, p: nat, d: nat)
    requires Loose(h, live, base, spare) && p in h.arenas && h.arenas[p] == Blocks(d, PerArena(d))
    ensures d < DESCS == |h.free| && NoDuplicates(h.free[d])
    ensures forall i: nat :: i < PerArena(d) ==> BlockAt(p, d, i) in h.free[d]
    ensures h.start <= p && p - h.start < |h.pages|
  {
    assert ArenaOk(h, live, p, h.arenas[p]);
    CountFull(h.free[d], p, d, PerArena(d));
  }

  class Allocator {
    const start: nat
    var arenas: map<nat, Arena>
    var free: seq<seq<nat>>
    var pages: Bits
    var frames: nat
    /** The areas handed out, with the sizes asked for. */
    ghost var live: map<nat, nat>
    /** The pages that others use, and how many more frames than pages are free. */
    ghost const base: Bits
    ghost const spare: int

    function State(): Heap
      reads this
    {
      Heap(arenas, free, start, pages, frames)
    }

    ghost predicate Valid()
      reads this
    {
      Ok(State(), live, base, spare)
    }

    constructor (start: nat, pages: Bits, frames: nat)
      ensures Valid() && this.start == start && live == map[] && this.pages == base == pages && this.frames == frames
      ensures spare == frames - CountFree(pages)
    {
      this.start, this.pages, this.frames := start, pages, frames;
      arenas, free, live := map[], seq(DESCS, _ => []), map[];
      base, spare := pages, frames - CountFree(pages);
    }

    /**
     The leftmost run of free pages with a frame for each. The pages are marked first; when
     frames run out they are given back, unless there was not even one.
     */
    method AllocPages(count: nat) returns (r: Option<nat>)
      requires count > 0
      modifies this`pages, this`frames
      ensures match FindRun(old(pages), count)
        case None => r.None? && pages == old(pages) && frames == old(frames)
        case Some(k) =>
          && IsFreeRun(old(pages), k, count)
          && (r.Some? <==> old(frames) >= count)
          && (r.Some? ==>
               r.value == start + k && pages == Mark(old(pages), k, count, true) && frames == old(frames) - count)
          && (r.None? ==>
               && frames == old(frames)
               && pages == if old(frames) == 0 then Mark(old(pages), k, count, true) else old(pages))
    {
      var k := FindRun(pages, count);
      FindRunCharacterised(pages, count, k);
      if k.None? {
        return None;
      }
      pages := Mark(pages, k.value, count, true);
      if frames >= count {
        frames := frames - count;
        return Some(start + k.value);
      }
      if frames > 0 {
        MarkUndo(old(pages), k.value, count);
        pages := Mark(pages, k.value, count, false);
      }
      r := None;
    }

    method FreePages(p: nat, count: nat)
      requires start <= p && p - start + count <= |pages|
      modifies this`pages, this`frames
      ensures pages == Mark(old(pages), p - start, count, false) && frames == old(frames) + count
    {
      pages, frames := Mark(pages, p - start, count, false), frames + count;
    }

    /** Lists all blocks of a new arena. */
    method ListBlocks(p: nat, d: nat)
      requires |free| == DESCS && d < DESCS
      modifies this`free, this`arenas
      ensures arenas == old(arenas)[p := Blocks(d, PerArena(d))]
      ensures free == old(free)[d := old(free)[d] + BlockList(p, d, PerArena(d))]
      ensures |free[d]| == |old(free)[d]| + PerArena(d)
      ensures forall i: nat :: i < PerArena(d) ==> free[d][|old(free)[d]| + i] == p * 4096 + 12 + i * BlockSize(d)
    {
      arenas := arenas[p := Blocks(d, PerArena(d))];
      assert old(free)[d] + BlockList(p, d, 0) == old(free)[d];
      var i := 0;
      while i != PerArena(d)
        invariant i <= PerArena(d) && |free| == DESCS
        invariant arenas == old(arenas)[p := Blocks(d, PerArena(d))]
        invariant free == old(free)[d := old(free)[d] + BlockList(p, d, i)]
      {
        assert BlockList(p, d, i + 1) == BlockList(p, d, i) + [BlockAt(p, d, i)];
        assert old(free)[d] + BlockList(p, d, i + 1) == (old(free)[d] + BlockList(p, d, i)) + [BlockAt(p, d, i)];
        free := free[d := free[d] + [BlockAt(p, d, i)]];
        i := i + 1;
      }
    }

    /** Takes all blocks of an arena out of their list; each of them is there. */
    method UnlistBlocks(p: nat, d: nat)
      requires |free| == DESCS && d < DESCS && NoDuplicates(free[d])
      requires forall i: nat :: i < PerArena(d) ==> BlockAt(p, d, i) in free[d]
      modifies this`free
      ensures free == old(free)[d := WithoutBlocks(old(free)[d], p, d, PerArena(d))]
      ensures forall b: nat ::
        b in free[d] <==> b in old(free)[d] && forall i: nat :: i < PerArena(d) ==> b != BlockAt(p, d, i)
      ensures forall x: nat, y: nat :: InFront(free[d], x, y) ==> InFront(old(free)[d], x, y)
    {
      var i := 0;
      while i != PerArena(d)
        invariant i <= PerArena(d) && |free| == DESCS
        invariant free == old(free)[d := WithoutBlocks(old(free)[d], p, d, i)]
      {
        assert BlockAt(p, d, i) in free[d] by {
          WithoutBlocksMembers(old(free)[d], p, d, i);
          forall j: nat | j < i ensures BlockAt(p, d, i) != BlockAt(p, d, j) {
            BlocksApart(p, d, j, i);
          }
        }
        free := free[d := Detached(free[d], BlockAt(p, d, i))];
        i := i + 1;
      }
      WithoutBlocksMembers(old(free)[d], p, d, i);
      forall x: nat, y: nat | InFront(free[d], x, y) ensures InFront(old(free)[d], x, y) {
        WithoutBlocksOrder(old(free)[d], p, d, i, x, y);
      }
    }

    /**
     Hands out an area of at least `size` bytes. Nothing is handed out while fewer bytes than
     that are in free frames, even where a free block would do.
     */
    method Allocate(size: nat) returns (r: AllocResult)
      requires Valid() && size > 0
      modifies this
      ensures r.Null? <==> old(frames) * PAGE < size
      ensures r.Null? ==> State() == old(State()) && live == old(live)
      ensures r.Halt? <==> old(frames) * PAGE >= size && CannotGrow(old(State()), size)
      ensures r.Area? ==> Valid() && r.addr !in old(live) && live == old(live)[r.addr := size]
      ensures r.Area? ==> |old(free)| == DESCS && Served(old(State()), State(), size, r.addr)
    {
      hide Loose, PerArena, BlockAt, BlockSize, CountFree, Mark, FindRun;
      if frames * PAGE < size {
        return Null;
      }
      ghost var h := State();
      LooseParts(h, live, base, spare);
      if size > MAX_BLOCK {
        var count := PagesFor(size);
        var p := AllocPages(count);
        if p.None? {
          return Halt;
        }
        arenas := arenas[p.value := Large(count)];
        LargeAddedKeeps(h, State(), live, base, spare, p.value, count, size);
        live := live[p.value * PAGE + HEADER := size];
        HeaderPage(p.value);
        return Area(p.value * PAGE + HEADER);
      }
      var d := GetMinDesc(size);
      if free[d] == [] {
        var p := AllocPages(1);
        if p.None? {
          return Halt;
        }
        ListBlocks(p.value, d);
        ArenaAddedKeeps(h, State(), live, base, spare, p.value, d);
        AddedNotEmpty(h, State(), p.value, d);
        assert ArenaAdded(h, State(), p.value, d) && free[d][0] / PAGE == p.value;
      } else {
        assert !CannotGrow(h, size) by {
          forall e: nat | IsMinDesc(size, e) ensures e == d {
            MinDescUnique(size, d, e);
          }
        }
      }
      ghost var full := State();
      var a := TakeBlock(d);
      BlockTakenKeeps(full, State(), live, base, spare, d, a, size);
      NoneFreeAfter(h, full, State(), d, a);
      if h.free[d] == [] {
        FirstTaken(h, full, State(), a / PAGE, d, a);
      }
      assert ServedBy(h, State(), d, a);
      live := live[a := size];
      return Area(a);
    }

    method TakeBlock(d: nat) returns (a: nat)
      requires d < |free| == DESCS && free[d] != []
      requires Loose(State(), live, base, spare)
      modifies this`free, this`arenas
      ensures BlockTaken(old(State()), State(), d, a) && old(arenas)[a / PAGE].desc == d
    {
      a := free[d][0];
      FreeBlockCounted(State(), live, d, a);
      free := free[d := free[d][1..]];
      arenas := arenas[a / PAGE := arenas[a / PAGE].(count := arenas[a / PAGE].count - 1)];
    }

    /** Takes an area back. The null address is ignored. */
    method Free(addr: nat)
      requires Valid() && (addr == 0 || addr in live)
      modifies this
      ensures Valid() && live == old(live) - {addr}
      ensures if addr == 0 then State() == old(State()) else TakenBack(old(State()), State(), old(live), addr)
      ensures addr != 0 ==> FreedAs(old(State()), State(), addr)
    {
      hide Loose, PerArena, BlockAt, BlockSize, CountFree, Mark, FreedAs;
      if addr == 0 {
        NullNotLive(State(), live, base, spare);
        return;
      }
      ghost var h := State();
      LiveArea(h, live, base, spare, addr);
      var p := addr / PAGE;
      if arenas[p].Large? {
        FreePages(p, arenas[p].pages);
        arenas := arenas - {p};
        LargeRemovedKeeps(h, State(), live, base, spare, p);
        TakenBackMeans(h, State(), live, base, spare, addr);
        live := live - {addr};
        return;
      }
      var d := arenas[p].desc;
      free := free[d := free[d] + [addr]];
      arenas := arenas[p := arenas[p].(count := arenas[p].count + 1)];
      ghost var full := State();
      BlockReturnedKeeps(h, full, live, base, spare, addr);
      live := live - {addr};
      if arenas[p].count == PerArena(d) {
        AllListed(full, live, base, spare, p, d);
        UnlistBlocks(p, d);
        FreePages(p, 1);
        arenas := arenas - {p};
        ArenaRemovedKeeps(full, State(), live, base, spare, p, d);
      }
      assert FullArenaRemoved(full, State(), p);
      TakenBackMeans(h, State(), old(live), base, spare, addr);
    }
  }
}
