/** Allocating and freeing runs of mapped pages. */
module PageAllocation {
  import opened Wrappers
  import opened Words
  import opened BitRuns
  import opened PageTables
  import opened AddressSpaces
  import opened MemoryUnit
  import opened MemoryInvariant
  import opened TableNeeds
  import opened PageAccess

  /** `Halted` is the kernel's stop when no frame is left for a page table. */
  datatype AllocResult = Pages(base: nat) | NoPages | Halted
  datatype MapResult = Mapped(frame: Frame) | NoFrame | NoTable

  ghost predicate Valid(m: Memory)
    reads m
  {
    Inv(m.boot, m.ram, m.dirs, m.pools) && m.cr3 in m.dirs
  }

  /** The pools that the kernel, or the current process, allocates from. */
  ghost predicate HasPools(m: Memory, kind: PoolType)
    reads m
  {
    kind.User? ==> m.cr3 in m.pools.usrAddr
  }

  lemma PoolPages(boot: Frame, ram: Ram, dirs: set<Frame>, pools: Pools, kind: PoolType, cr3: Frame, n: nat)
    requires Inv(boot, ram, dirs, pools) && (kind.User? ==> cr3 in pools.usrAddr)
    requires AddrPool(pools, kind, cr3).Has(n)
    ensures n < FRAMES && NumberOf(PageAt(n)) == n && PageAt(n).d < SELF_REF
    ensures if kind.Kernel? then PageAt(n).d >= KRNL_START else 1 <= PageAt(n).d < KRNL_START
  {
    PageNumbers(if n < FRAMES then n else 0, Page(0, 0));
  }

  /** A page of the current space that is the same page as another has the same translation. */
  lemma SamePageSameWalk(boot: Frame, ram: Ram, dirs: set<Frame>, dir: Frame, p: VPage, cr3: Frame, q: VPage)
    requires IsRam(ram) && SpacesOk(boot, ram, dirs) && dir in dirs && cr3 in dirs && p.d < SELF_REF && q.d < SELF_REF
    requires SamePage(boot, dir, p, cr3, q)
    ensures Walk(ram, dir, p) == Walk(ram, cr3, q)
  {
    SameHomeSameTable(boot, ram, dirs, dir, p.d, cr3, q.d);
  }

  /** Pages of a pool that are not marked are not mapped. */
  lemma UnmarkedUnmapped(boot: Frame, ram: Ram, dirs: set<Frame>, pools: Pools, kind: PoolType, cr3: Frame, n: nat)
    requires Inv(boot, ram, dirs, pools) && cr3 in dirs && (kind.User? ==> cr3 in pools.usrAddr)
    requires AddrPool(pools, kind, cr3).IsFree(n)
    ensures n < FRAMES && Walk(ram, cr3, PageAt(n)) == None
  {
    PoolPages(boot, ram, dirs, pools, kind, cr3, n);
    hide FramesOk, IsRam, PageAt;
    if kind.Kernel? {
      hide UserOk;
      BootIn(boot, ram, dirs);
      KernelPagesShared(boot, ram, dirs, cr3, boot, PageAt(n));
    } else {
      hide KernelOk, SpacesOk, Walk;
      assert IsUserPage(boot, cr3, PageAt(n));
    }
  }

  /** Frames that hold no directory and no table keep their content. */
  ghost predicate DataKept(ram: Ram, ram': Ram, dirs: set<Frame>)
    requires IsRam(ram) && IsRam(ram')
  {
    forall f: Frame :: f !in dirs && !IsTable(ram', dirs, f) ==> FrameAt(ram', f) == FrameAt(ram, f)
  }

  ghost predicate SameOrOneMore(pool: Pool, pool': Pool) {
    pool' == pool || exists x :: pool.IsFree(x) && pool' == pool.With(x, true)
  }

  /** The memory pools after one more frame of `kind`, and perhaps a table, has been taken. */
  ghost predicate OneFrameTaken(pools: Pools, pools': Pools, kind: PoolType, f: Frame) {
    && pools'.krnlAddr == pools.krnlAddr && pools'.usrAddr == pools.usrAddr
    && MemPool(pools, kind).IsFree(f) && MemPool(pools', kind) == MemPool(pools, kind).With(f, true)
    && (kind.Kernel? ==> pools'.usrMem == pools.usrMem)
    && (kind.User? ==> SameOrOneMore(pools.krnlMem, pools'.krnlMem))
  }

  /** One frame of `kind` has been taken. */
  ghost predicate FrameTaken(pools: Pools, pools': Pools, kind: PoolType) {
    exists f: Frame :: MemPool(pools, kind).IsFree(f)
      && pools' == WithMemPool(pools, kind, MemPool(pools, kind).With(f, true))
  }

  /** One frame of the pool of `kind`. */
  method AllocFrame(m: Memory, kind: PoolType) returns (r: Option<Frame>)
    requires MemPool(m.pools, kind).start + |MemPool(m.pools, kind).bits| <= FRAMES
    modifies m`pools
    ensures r.None? <==> CountFree(MemPool(old(m.pools), kind).bits) == 0
    ensures r.None? ==> m.pools == old(m.pools)
    ensures r.Some? ==>
      && MemPool(old(m.pools), kind).IsFree(r.value)
      && FindRun(MemPool(old(m.pools), kind).bits, 1) == Some(r.value - MemPool(old(m.pools), kind).start)
      && m.pools == WithMemPool(old(m.pools), kind, MemPool(old(m.pools), kind).With(r.value, true))
      && CountFree(MemPool(m.pools, kind).bits) == CountFree(MemPool(old(m.pools), kind).bits) - 1
  {
    var pool := MemPool(m.pools, kind);
    FindOne(pool.bits);
    match FindRun(pool.bits, 1)
    case None => r := None;
    case Some(b) =>
      WithCount(pool, pool.start + b, true);
      m.pools := WithMemPool(m.pools, kind, pool.With(pool.start + b, true));
      r := Some(pool.start + b);
  }

  /** Backs the marked page `n` with a frame. */
  method AllocAndMap(m: Memory, kind: PoolType, n: nat) returns (r: MapResult)
    requires Valid(m) && HasPools(m, kind)
    requires AddrPool(m.pools, kind, m.cr3).IsUsed(n) && n < FRAMES && Walk(m.ram, m.cr3, PageAt(n)).None?
    modifies m`ram, m`pools
    ensures r.NoFrame? <==> CountFree(MemPool(old(m.pools), kind).bits) == 0
    ensures r.NoFrame? ==> m.ram == old(m.ram) && m.pools == old(m.pools)
    ensures r.NoTable? <==>
      && CountFree(MemPool(old(m.pools), kind).bits) > 0
      && TableOf(old(m.ram), m.cr3, PageAt(n).d).None? && CountFree(old(m.pools).krnlMem.bits) == 0
    ensures r.NoTable? ==> m.ram == old(m.ram) && FrameTaken(old(m.pools), m.pools, kind)
    ensures kind.Kernel? ==> TableOf(old(m.ram), m.cr3, PageAt(n).d).Some?
    ensures r.Mapped? ==>
      && Valid(m) && HasPools(m, kind)
      && OneFrameTaken(old(m.pools), m.pools, kind, r.frame)
      && WalksChangedAt(m.boot, old(m.ram), m.ram, m.dirs, m.cr3, PageAt(n), Some(r.frame))
      && PageStored(old(m.ram), m.ram, m.cr3, n / 1024, n % 1024, r.frame)
      && DataKept(old(m.ram), m.ram, m.dirs)
      && CountFree(MemPool(m.pools, kind).bits) == CountFree(MemPool(old(m.pools), kind).bits) - 1
      && (TableOf(old(m.ram), m.cr3, PageAt(n).d).Some? ==>
           m.pools == WithMemPool(old(m.pools), kind, MemPool(old(m.pools), kind).With(r.frame, true)))
      && (TableOf(old(m.ram), m.cr3, PageAt(n).d).None? ==>
           CountFree(m.pools.krnlMem.bits) == CountFree(old(m.pools).krnlMem.bits) - 1)
      && (forall d :: 0 <= d < SELF_REF ==>
           (TableOf(m.ram, m.cr3, d).Some? <==> TableOf(old(m.ram), m.cr3, d).Some? || d == PageAt(n).d))
      && (forall g: nat :: IsTable(old(m.ram), m.dirs, g) ==> IsTable(m.ram, m.dirs, g))
      && (kind.Kernel? ==> SameTables(old(m.ram), m.ram, m.dirs))
  {
    hide UserOk, KernelOk, SpacesOk, IsRam, Walk, TableOf, PageAt, DataKept, SameTables, IsTable, CountFree, NumberOf,
      PageOf, BaseOf, PageStored;
    BaseOfNumber(n);
    ghost var ram0, pools0 := m.ram, m.pools;
    PoolPages(m.boot, m.ram, m.dirs, m.pools, kind, m.cr3, n);
    ghost var p := PageAt(n);
    BaseOfPage(PageAt(n));
    KernelTablePresent(m.boot, m.ram, m.dirs, m.cr3, p.d);
    var f := AllocFrame(m, kind);
    if f.None? {
      return NoFrame;
    }
    assert m.TablesOk() by {
      TablesStillOk(m.boot, m.ram, m.dirs, pools0, m.pools, kind, f.value);
    }
    var ok := m.MapToPhyAddr(BaseOf(PageAt(n)), f.value);
    if !ok {
      return NoTable;
    }
    MapStep(m.boot, ram0, m.ram, m.dirs, pools0, m.pools, kind, m.cr3, n, f.value);
    r := Mapped(f.value);
  }

  lemma KernelTablePresent(boot: Frame, ram: Ram, dirs: set<Frame>, dir: Frame, d: nat)
    requires IsRam(ram) && SpacesOk(boot, ram, dirs) && dir in dirs && d < SELF_REF
    ensures d >= KRNL_START ==> TableOf(ram, dir, d).Some?
  {
  }

  lemma TablesStillOk(boot: Frame, ram: Ram, dirs: set<Frame>, pools: Pools, pools': Pools, kind: PoolType, f: Frame)
    requires Inv(boot, ram, dirs, pools)
    requires MemPool(pools, kind).IsFree(f)
    requires pools' == WithMemPool(pools, kind, MemPool(pools, kind).With(f, true))
    ensures pools'.krnlMem.start + |pools'.krnlMem.bits| <= FRAMES
    ensures forall g :: pools'.krnlMem.IsFree(g) ==> g !in dirs && !IsTable(ram, dirs, g)
    ensures IsRam(ram) && SpacesOk(boot, ram, dirs)
  {
    hide UserOk, KernelOk, SpacesOk, IsRam, IsTable;
    assert forall g :: pools'.krnlMem.IsFree(g) ==> pools.krnlMem.IsFree(g);
  }

  lemma WithPageKeeps(boot: Frame, ram: Ram, dirs: set<Frame>, cr3: Frame, p: VPage, f: Frame)
    requires IsRam(ram) && SpacesOk(boot, ram, dirs) && cr3 in dirs && p.d < SELF_REF && TableOf(ram, cr3, p.d).Some?
    ensures SameTables(ram, WithPage(ram, cr3, p, f), dirs)
    ensures DataKept(ram, WithPage(ram, cr3, p, f), dirs)
    ensures WalksChangedAt(boot, ram, WithPage(ram, cr3, p, f), dirs, cr3, p, Some(f))
  {
    var ram' := WithPage(ram, cr3, p, f);
    NewPageWalks(boot, ram, dirs, cr3, p, f);
    var tab := TableOf(ram, cr3, p.d).value;
    assert tab !in dirs;
    SpacesFrame(boot, ram, ram', dirs);
    assert IsTable(ram', dirs, tab);
  }

  lemma WithTableKeeps(boot: Frame, ram: Ram, dirs: set<Frame>, cr3: Frame, d: nat, tab: Frame)
    requires IsRam(ram) && SpacesOk(boot, ram, dirs) && cr3 in dirs && d < SELF_REF
    requires TableOf(ram, cr3, d).None? && tab !in dirs && !IsTable(ram, dirs, tab)
    ensures DataKept(ram, WithTable(ram, cr3, d, tab), dirs)
  {
    NewTableKeepsWalks(boot, ram, dirs, cr3, d, tab);
    var ram' := WithTable(ram, cr3, d, tab);
    assert TableOf(ram', cr3, d) == Some(tab);
    assert IsTable(ram', dirs, tab);
  }

  lemma DataKeptTrans(ram0: Ram, ram1: Ram, ram2: Ram, dirs: set<Frame>)
    requires IsRam(ram0) && IsRam(ram1) && IsRam(ram2) && DataKept(ram0, ram1, dirs) && DataKept(ram1, ram2, dirs)
    requires forall f: nat :: IsTable(ram1, dirs, f) ==> IsTable(ram2, dirs, f)
    ensures DataKept(ram0, ram2, dirs)
  {
    hide IsTable, IsRam;
  }

  /** Mapping to a frame just taken from its pool keeps the invariant. */
  lemma MapKeepsInv(boot: Frame, ram: Ram, dirs: set<Frame>, pools: Pools, kind: PoolType, cr3: Frame, n: nat, f: Frame)
    requires Inv(boot, ram, dirs, pools) && cr3 in dirs && (kind.User? ==> cr3 in pools.usrAddr)
    requires AddrPool(pools, kind, cr3).IsUsed(n) && n < FRAMES && TableOf(ram, cr3, PageAt(n).d).Some?
    requires MemPool(pools, kind).IsFree(f)
    ensures Inv(boot, WithPage(ram, cr3, PageAt(n), f), dirs,
                WithMemPool(pools, kind, MemPool(pools, kind).With(f, true)))
  {
    PoolPages(boot, ram, dirs, pools, kind, cr3, n);
    var p := PageAt(n);
    NewPageWalks(boot, ram, dirs, cr3, p, f);
    WithPageKeeps(boot, ram, dirs, cr3, p, f);
    var ram' := WithPage(ram, cr3, p, f);
    hide Inv, WithPage, SpacesOk, PageAt, NumberOf;
    if kind.Kernel? {
      MapKernelKeepsInv(boot, ram, ram', dirs, pools, cr3, p, f);
    } else {
      MapUserKeepsInv(boot, ram, ram', dirs, pools, cr3, p, f);
    }
  }

  lemma MapStep(boot: Frame, ram: Ram, ram': Ram, dirs: set<Frame>, pools: Pools, pools': Pools, kind: PoolType,
                cr3: Frame, n: nat, f: Frame)
    requires Inv(boot, ram, dirs, pools) && cr3 in dirs && (kind.User? ==> cr3 in pools.usrAddr)
    requires AddrPool(pools, kind, cr3).IsUsed(n) && n < FRAMES && MemPool(pools, kind).IsFree(f)
    requires IsRam(ram')
    requires MapEffect(ram, ram', dirs, WithMemPool(pools, kind, MemPool(pools, kind).With(f, true)), pools',
                       cr3, PageAt(n), f)
    requires kind.Kernel? ==> TableOf(ram, cr3, PageAt(n).d).Some?
    ensures Inv(boot, ram', dirs, pools') && OneFrameTaken(pools, pools', kind, f) && DataKept(ram, ram', dirs)
    ensures forall g: nat :: IsTable(ram, dirs, g) ==> IsTable(ram', dirs, g)
    ensures forall d :: 0 <= d < SELF_REF ==>
      (TableOf(ram', cr3, d).Some? <==> TableOf(ram, cr3, d).Some? || d == PageAt(n).d)
    ensures kind.Kernel? ==> SameTables(ram, ram', dirs)
  {
    var p := PageAt(n);
    PoolPages(boot, ram, dirs, pools, kind, cr3, n);
    if TableOf(ram, cr3, p.d).Some? {
      MapKeepsInv(boot, ram, dirs, pools, kind, cr3, n, f);
      WithPageKeeps(boot, ram, dirs, cr3, p, f);
      SameTablesSameFrames(ram, ram', dirs);
    } else {
      var taken := WithMemPool(pools, kind, MemPool(pools, kind).With(f, true));
      var tab: Frame :| NewTableEffect(ram, ram', dirs, taken, pools', cr3, p, f, tab);
      MapStepNewTable(boot, ram, ram', dirs, pools, pools', cr3, n, f, tab);
    }
  }

  lemma MapStepNewTable(boot: Frame, ram: Ram, ram': Ram, dirs: set<Frame>, pools: Pools, pools': Pools, cr3: Frame,
                        n: nat, f: Frame, tab: Frame)
    requires Inv(boot, ram, dirs, pools) && cr3 in dirs && cr3 in pools.usrAddr
    requires pools.usrAddr[cr3].IsUsed(n) && n < FRAMES && pools.usrMem.IsFree(f)
    requires tab !in dirs && !IsTable(ram, dirs, tab) && pools.krnlMem.IsFree(tab) && tab != cr3
    requires pools' == pools.(usrMem := pools.usrMem.With(f, true), krnlMem := pools.krnlMem.With(tab, true))
    requires TableOf(ram, cr3, PageAt(n).d).None? && PageAt(n).d < SELF_REF
    requires TableOf(WithTable(ram, cr3, PageAt(n).d, tab), cr3, PageAt(n).d) == Some(tab)
    requires ram' == WithPage(WithTable(ram, cr3, PageAt(n).d, tab), cr3, PageAt(n), f)
    ensures Inv(boot, ram', dirs, pools') && DataKept(ram, ram', dirs)
    ensures forall g: nat :: IsTable(ram, dirs, g) ==> IsTable(ram', dirs, g)
    ensures forall d :: 0 <= d < SELF_REF ==>
      (TableOf(ram', cr3, d).Some? <==> TableOf(ram, cr3, d).Some? || d == PageAt(n).d)
  {
    var p := PageAt(n);
    var mid := WithTable(ram, cr3, p.d, tab);
    NewTableKeepsInv(boot, ram, dirs, pools, cr3, p.d, tab);
    MapKeepsInv(boot, mid, dirs, pools.(krnlMem := pools.krnlMem.With(tab, true)), User, cr3, n, f);
    NewTableKeepsWalks(boot, ram, dirs, cr3, p.d, tab);
    WithTableKeeps(boot, ram, dirs, cr3, p.d, tab);
    NewTableFrames(boot, ram, dirs, cr3, p.d, tab);
    WithPageKeeps(boot, mid, dirs, cr3, p, f);
    SameTablesSameFrames(mid, ram', dirs);
    DataKeptTrans(ram, mid, ram', dirs);
  }

  // Freeing.

  lemma WithoutPageKeeps(boot: Frame, ram: Ram, dirs: set<Frame>, cr3: Frame, p: VPage)
    requires IsRam(ram) && SpacesOk(boot, ram, dirs) && cr3 in dirs && p.d < SELF_REF
    ensures SameTables(ram, WithoutPage(ram, cr3, p), dirs) && DataKept(ram, WithoutPage(ram, cr3, p), dirs)
    ensures WalksChangedAt(boot, ram, WithoutPage(ram, cr3, p), dirs, cr3, p, None)
  {
    var ram' := WithoutPage(ram, cr3, p);
    NoPageWalks(boot, ram, dirs, cr3, p);
    SpacesFrame(boot, ram, ram', dirs) by {
      if TableOf(ram, cr3, p.d).Some? {
        assert TableOf(ram, cr3, p.d).value !in dirs;
      }
    }
    if TableOf(ram, cr3, p.d).Some? {
      assert IsTable(ram', dirs, TableOf(ram, cr3, p.d).value);
    }
  }

  /** Frees the frame of page `n` and removes its mapping. */
  method FreeAndUnmap(m: Memory, kind: PoolType, n: nat)
    requires Valid(m) && HasPools(m, kind)
    requires AddrPool(m.pools, kind, m.cr3).IsUsed(n) && n < FRAMES && Walk(m.ram, m.cr3, PageAt(n)).Some?
    requires kind.Kernel? ==> Walk(m.ram, m.cr3, PageAt(n)).value !in m.dirs
    modifies m`ram, m`pools
    ensures Valid(m) && HasPools(m, kind)
    ensures var f := Walk(old(m.ram), m.cr3, PageAt(n)).value;
      && MemPool(old(m.pools), kind).IsUsed(f)
      && m.pools == WithMemPool(old(m.pools), kind, MemPool(old(m.pools), kind).With(f, false))
      && CountFree(MemPool(m.pools, kind).bits) == CountFree(MemPool(old(m.pools), kind).bits) + 1
    ensures WalksChangedAt(m.boot, old(m.ram), m.ram, m.dirs, m.cr3, PageAt(n), None)
    ensures PageCleared(old(m.ram), m.ram, m.cr3, n / 1024, n % 1024)
    ensures SameTables(old(m.ram), m.ram, m.dirs) && DataKept(old(m.ram), m.ram, m.dirs)
  {
    hide FramesOk, UserOk, KernelOk, SpacesOk, WithoutPage, IsRam, PageAt, NumberOf, SameTables, DataKept,
      WalksChangedAt, Walk, CountFree, BaseOf, PageCleared;
    PoolPages(m.boot, m.ram, m.dirs, m.pools, kind, m.cr3, n);
    BaseOfPage(PageAt(n));
    BaseOfNumber(n);
    var f := Walk(m.ram, m.cr3, PageAt(n)).value;
    WithoutPageKeeps(m.boot, m.ram, m.dirs, m.cr3, PageAt(n));
    UnmapKeepsInv(m.boot, m.ram, m.dirs, m.pools, kind, m.cr3, n, f);
    WithCount(MemPool(m.pools, kind), f, false);
    m.pools := WithMemPool(m.pools, kind, MemPool(m.pools, kind).With(f, false));
    m.Unmap(BaseOf(PageAt(n)));
  }

  lemma UnmapKeepsInv(boot: Frame, ram: Ram, dirs: set<Frame>, pools: Pools, kind: PoolType, cr3: Frame, n: nat,
                      f: Frame)
    requires Inv(boot, ram, dirs, pools) && cr3 in dirs && (kind.User? ==> cr3 in pools.usrAddr)
    requires AddrPool(pools, kind, cr3).IsUsed(n) && n < FRAMES && Walk(ram, cr3, PageAt(n)) == Some(f)
    requires kind.Kernel? ==> f !in dirs
    ensures MemPool(pools, kind).IsUsed(f)
    ensures Inv(boot, WithoutPage(ram, cr3, PageAt(n)), dirs,
                WithMemPool(pools, kind, MemPool(pools, kind).With(f, false)))
  {
    PoolPages(boot, ram, dirs, pools, kind, cr3, n);
    var p := PageAt(n);
    WithoutPageKeeps(boot, ram, dirs, cr3, p);
    NoPageWalks(boot, ram, dirs, cr3, p);
    var ram' := WithoutPage(ram, cr3, p);
    BootIn(boot, ram, dirs);
    if kind.Kernel? {
      KernelPagesShared(boot, ram, dirs, cr3, boot, p);
      UnmapKernelKeepsInv(boot, ram, ram', dirs, pools, cr3, p, f);
    } else {
      UnmapUserKeepsInv(boot, ram, ram', dirs, pools, cr3, p, f);
    }
  }

  /** Two pages of one pool are the same page only when they are equal. */
  lemma SamePoolPage(boot: Frame, ram: Ram, dirs: set<Frame>, pools: Pools, kind: PoolType, cr3: Frame, i: nat, j: nat)
    requires Inv(boot, ram, dirs, pools) && (kind.User? ==> cr3 in pools.usrAddr)
    requires AddrPool(pools, kind, cr3).Has(i) && AddrPool(pools, kind, cr3).Has(j)
    ensures i < FRAMES && j < FRAMES
    ensures SamePage(boot, cr3, PageAt(i), cr3, PageAt(j)) <==> i == j
  {
    PoolPages(boot, ram, dirs, pools, kind, cr3, i);
    PoolPages(boot, ram, dirs, pools, kind, cr3, j);
  }

  /** Page `p` of `dir` is one of the pages `b`, ..., `b + count - 1` of the current space. */
  ghost predicate OnRun(boot: Frame, dir: Frame, p: VPage, cr3: Frame, b: nat, count: nat) {
    exists j :: b <= j < b + count && j < FRAMES && SamePage(boot, dir, p, cr3, PageAt(j))
  }

  /** Translations off the run are as before. */
  ghost predicate OffRunSame(boot: Frame, ram: Ram, ram': Ram, dirs: set<Frame>, cr3: Frame, b: nat, count: nat)
    requires IsRam(ram) && IsRam(ram')
  {
    forall dir, p: VPage :: dir in dirs && p.d < SELF_REF && !OnRun(boot, dir, p, cr3, b, count) ==>
      Walk(ram', dir, p) == Walk(ram, dir, p)
  }

  lemma OffRunExtend(boot: Frame, ram: Ram, mid: Ram, ram': Ram, dirs: set<Frame>, cr3: Frame, b: nat, count: nat,
                     r: Option<Frame>)
    requires IsRam(ram) && IsRam(mid) && IsRam(ram') && b + count < FRAMES
    requires OffRunSame(boot, ram, mid, dirs, cr3, b, count)
    requires WalksChangedAt(boot, mid, ram', dirs, cr3, PageAt(b + count), r)
    ensures OffRunSame(boot, ram, ram', dirs, cr3, b, count + 1)
  {
    hide Walk, SamePage, PageAt, IsRam;
    forall dir, p: VPage | dir in dirs && p.d < SELF_REF && !OnRun(boot, dir, p, cr3, b, count + 1)
      ensures Walk(ram', dir, p) == Walk(ram, dir, p)
    {
      assert !SamePage(boot, dir, p, cr3, PageAt(b + count));
      OnRunGrows(boot, dir, p, cr3, b, count);
    }
  }

  lemma OnRunGrows(boot: Frame, dir: Frame, p: VPage, cr3: Frame, b: nat, count: nat)
    ensures OnRun(boot, dir, p, cr3, b, count) ==> OnRun(boot, dir, p, cr3, b, count + 1)
  {
    hide SamePage, PageAt;
  }

  /** Every page of the run is marked and mapped, and its frame may be freed. */
  ghost predicate MappedRun(ram: Ram, dirs: set<Frame>, pool: Pool, kind: PoolType, cr3: Frame, b: nat, count: nat)
    requires IsRam(ram)
  {
    forall j :: b <= j < b + count ==> MappedPage(ram, dirs, pool, kind, cr3, j)
  }

  ghost predicate MappedPage(ram: Ram, dirs: set<Frame>, pool: Pool, kind: PoolType, cr3: Frame, j: int)
    requires IsRam(ram)
  {
    && pool.IsUsed(j) && j < FRAMES
    && Walk(ram, cr3, PageAt(j)).Some? && (kind.Kernel? ==> Walk(ram, cr3, PageAt(j)).value !in dirs)
  }

  /** Some page of the run is mapped to frame `x`. */
  ghost predicate RunHas(ram: Ram, cr3: Frame, b: nat, count: nat, x: int)
    requires IsRam(ram)
  {
    exists j :: b <= j < b + count && j < FRAMES && Walk(ram, cr3, PageAt(j)).Some? &&
      Walk(ram, cr3, PageAt(j)).value == x
  }

  /** Every marked page of the process is mapped. */
  ghost predicate MarkedMapped(ram: Ram, pools: Pools, dir: Frame)
    requires IsRam(ram) && dir in pools.usrAddr
  {
    forall n: nat :: pools.usrAddr[dir].IsUsed(n) ==> n < FRAMES && Walk(ram, dir, PageAt(n)).Some?
  }

  /** The marked pages of every process stay mapped, apart from those of `lost`. */
  ghost predicate MarksKept(ram0: Ram, ram: Ram, pools0: Pools, pools: Pools, lost: set<Frame>)
    requires IsRam(ram0) && IsRam(ram)
  {
    forall dir :: dir in pools0.usrAddr && MarkedMapped(ram0, pools0, dir) ==>
      dir in pools.usrAddr && (MarkedMapped(ram, pools, dir) <==> dir !in lost)
  }

  /** Frees the frames of `count` mapped pages and then the pages. */
  method FreePages(m: Memory, kind: PoolType, b: nat, count: nat)
    requires Valid(m) && HasPools(m, kind) && count > 0
    requires b <= FRAMES && MappedRun(m.ram, m.dirs, AddrPool(m.pools, kind, m.cr3), kind, m.cr3, b, count)
    modifies m`ram, m`pools
    ensures Valid(m) && HasPools(m, kind) && b + count <= FRAMES
    ensures Freed(old(m.pools), m.pools, kind, m.cr3, b, count)
    ensures forall x :: MemPool(old(m.pools), kind).Has(x) ==>
      (MemPool(m.pools, kind).IsUsed(x) <==>
        MemPool(old(m.pools), kind).IsUsed(x) && !RunHas(old(m.ram), m.cr3, b, count, x))
    ensures CountFree(MemPool(m.pools, kind).bits) == CountFree(MemPool(old(m.pools), kind).bits) + count
    ensures forall j :: b <= j < b + count ==> Walk(m.ram, m.cr3, PageAt(j)).None?
    ensures OffRunSame(m.boot, old(m.ram), m.ram, m.dirs, m.cr3, b, count)
    ensures SameTables(old(m.ram), m.ram, m.dirs) && DataKept(old(m.ram), m.ram, m.dirs)
    ensures MarksKept(old(m.ram), m.ram, old(m.pools), m.pools, {})
  {
    hide Walk, FramesOk, UserOk, KernelOk, SpacesOk, IsRam, PageAt, TableOf, OffRunSame, DataKept, SameTables,
      WalksChangedAt, CountFree, RunHas, MarksKept;
    ghost var ram0, pools0 := m.ram, m.pools;
    var i := 0;
    FreeLoopStart(m, kind, b, count);
    assert MappedPage(m.ram, m.dirs, AddrPool(m.pools, kind, m.cr3), kind, m.cr3, b);
    while i != count
      invariant i <= count && Valid(m) && HasPools(m, kind) && b + i <= FRAMES
      invariant FreeLoop(m.boot, ram0, m.ram, m.dirs, pools0, m.pools, kind, m.cr3, b, count, i)
    {
      hide FreeWalks, FreeFrames, FreeLoop;
      FreeLoopNext(m.boot, ram0, m.ram, m.dirs, pools0, m.pools, kind, m.cr3, b, count, i);
      ghost var ram1, pools1 := m.ram, m.pools;
      FreeAndUnmap(m, kind, b + i);
      FreeLoopStep(m.boot, ram0, ram1, m.ram, m.dirs, pools0, pools1, m.pools, kind, m.cr3, b, count, i);
      i := i + 1;
    }
    FreeLoopEnd(m.boot, ram0, m.ram, m.dirs, pools0, m.pools, kind, m.cr3, b, count);
    FreeAddr(m, kind, b, count);
    FreedMarks(m.boot, ram0, m.ram, m.dirs, pools0, m.pools, kind, m.cr3, b, count);
  }

  /** The address space after `i` pages of the run have been unmapped. */
  ghost predicate FreeWalks(boot: Frame, ram0: Ram, ram: Ram, dirs: set<Frame>, pool: Pool, kind: PoolType,
                            cr3: Frame, b: nat, count: nat, i: nat)
    requires IsRam(ram0) && IsRam(ram)
  {
    && i <= count && b + i <= FRAMES
    && MappedRun(ram, dirs, pool, kind, cr3, b + i, count - i)
    && (forall j :: b + i <= j < b + count && j < FRAMES ==> Walk(ram, cr3, PageAt(j)) == Walk(ram0, cr3, PageAt(j)))
    && (forall j :: b <= j < b + i ==> Walk(ram, cr3, PageAt(j)).None? && pool.IsUsed(j))
    && OffRunSame(boot, ram0, ram, dirs, cr3, b, i)
    && SameTables(ram0, ram, dirs) && DataKept(ram0, ram, dirs)
  }

  /** The frame pool after the frames of `i` pages of the run have been freed. */
  ghost predicate FreeFrames(ram0: Ram, mem0: Pool, mem: Pool, cr3: Frame, b: nat, i: nat)
    requires IsRam(ram0)
  {
    && mem.start == mem0.start && |mem.bits| == |mem0.bits|
    && (forall x :: mem0.Has(x) ==> (mem.IsUsed(x) <==> mem0.IsUsed(x) && !RunHas(ram0, cr3, b, i, x)))
    && CountFree(mem.bits) == CountFree(mem0.bits) + i
  }

  /** The state of the freeing loop after `i` pages. */
  ghost predicate FreeLoop(boot: Frame, ram0: Ram, ram: Ram, dirs: set<Frame>, pools0: Pools, pools: Pools,
                           kind: PoolType, cr3: Frame, b: nat, count: nat, i: nat)
    requires IsRam(ram0) && IsRam(ram) && (kind.User? ==> cr3 in pools0.usrAddr)
  {
    && pools == WithMemPool(pools0, kind, MemPool(pools, kind))
    && FreeWalks(boot, ram0, ram, dirs, AddrPool(pools0, kind, cr3), kind, cr3, b, count, i)
    && FreeFrames(ram0, MemPool(pools0, kind), MemPool(pools, kind), cr3, b, i)
  }

  lemma FreeLoopStart(m: Memory, kind: PoolType, b: nat, count: nat)
    requires Valid(m) && HasPools(m, kind) && b <= FRAMES
    requires MappedRun(m.ram, m.dirs, AddrPool(m.pools, kind, m.cr3), kind, m.cr3, b, count)
    ensures FreeLoop(m.boot, m.ram, m.ram, m.dirs, m.pools, m.pools, kind, m.cr3, b, count, 0)
  {
  }

  lemma FreeLoopNext(boot: Frame, ram0: Ram, ram: Ram, dirs: set<Frame>, pools0: Pools, pools: Pools,
                     kind: PoolType, cr3: Frame, b: nat, count: nat, i: nat)
    requires IsRam(ram0) && IsRam(ram) && (kind.User? ==> cr3 in pools0.usrAddr)
    requires FreeLoop(boot, ram0, ram, dirs, pools0, pools, kind, cr3, b, count, i) && i < count
    ensures b + i < FRAMES && (kind.User? ==> cr3 in pools.usrAddr)
    ensures AddrPool(pools, kind, cr3).IsUsed(b + i) && Walk(ram, cr3, PageAt(b + i)).Some?
    ensures kind.Kernel? ==> Walk(ram, cr3, PageAt(b + i)).value !in dirs
  {
    assert pools.usrAddr == pools0.usrAddr && pools.krnlAddr == pools0.krnlAddr;
    assert MappedPage(ram, dirs, AddrPool(pools0, kind, cr3), kind, cr3, b + i);
  }

  lemma RunHasExtend(ram: Ram, cr3: Frame, b: nat, i: nat, x: int)
    requires IsRam(ram) && b + i < FRAMES
    ensures RunHas(ram, cr3, b, i + 1, x) <==>
      RunHas(ram, cr3, b, i, x) || (Walk(ram, cr3, PageAt(b + i)).Some? && Walk(ram, cr3, PageAt(b + i)).value == x)
  {
    hide Walk, PageAt, IsRam;
    if RunHas(ram, cr3, b, i + 1, x) {
      var j :| b <= j < b + i + 1 && j < FRAMES && Walk(ram, cr3, PageAt(j)).Some? &&
        Walk(ram, cr3, PageAt(j)).value == x;
      assert j < b + i ==> RunHas(ram, cr3, b, i, x);
    }
    if RunHas(ram, cr3, b, i, x) {
      var j :| b <= j < b + i && j < FRAMES && Walk(ram, cr3, PageAt(j)).Some? && Walk(ram, cr3, PageAt(j)).value == x;
      assert RunHas(ram, cr3, b, i + 1, x);
    }
  }

  /** How unmapping page `n` shows on another page of the same pool. */
  lemma PoolWalkStep(boot: Frame, ram1: Ram, ram2: Ram, dirs: set<Frame>, pools: Pools, kind: PoolType, cr3: Frame,
                     n: nat, r: Option<Frame>, j: nat)
    requires Inv(boot, ram1, dirs, pools) && IsRam(ram2) && cr3 in dirs && (kind.User? ==> cr3 in pools.usrAddr)
    requires AddrPool(pools, kind, cr3).Has(n) && AddrPool(pools, kind, cr3).Has(j) && n < FRAMES
    requires WalksChangedAt(boot, ram1, ram2, dirs, cr3, PageAt(n), r)
    ensures j < FRAMES && Walk(ram2, cr3, PageAt(j)) == if j == n then r else Walk(ram1, cr3, PageAt(j))
  {
    PoolPages(boot, ram1, dirs, pools, kind, cr3, j);
    SamePoolPage(boot, ram1, dirs, pools, kind, cr3, j, n);
  }

  lemma FreeWalksStep(boot: Frame, ram0: Ram, ram1: Ram, ram2: Ram, dirs: set<Frame>, pools: Pools,
                      kind: PoolType, cr3: Frame, b: nat, count: nat, i: nat)
    requires IsRam(ram0) && Inv(boot, ram1, dirs, pools) && IsRam(ram2) && cr3 in dirs
    requires (kind.User? ==> cr3 in pools.usrAddr)
    requires FreeWalks(boot, ram0, ram1, dirs, AddrPool(pools, kind, cr3), kind, cr3, b, count, i) && i < count
    requires b + i < FRAMES
    requires WalksChangedAt(boot, ram1, ram2, dirs, cr3, PageAt(b + i), None)
    requires SameTables(ram1, ram2, dirs) && DataKept(ram1, ram2, dirs)
    ensures FreeWalks(boot, ram0, ram2, dirs, AddrPool(pools, kind, cr3), kind, cr3, b, count, i + 1)
  {
    hide Walk, FramesOk, UserOk, KernelOk, SpacesOk, IsRam, PageAt, TableOf, WalksChangedAt, OffRunSame, DataKept;
    var pool := AddrPool(pools, kind, cr3);
    assert MappedPage(ram1, dirs, pool, kind, cr3, b + i);
    assert pool.IsUsed(b + i);
    forall j | b <= j < b + count
      ensures pool.IsUsed(j) && j < FRAMES
      ensures Walk(ram2, cr3, PageAt(j)) == if j == b + i then None else Walk(ram1, cr3, PageAt(j))
    {
      assert j >= b + i ==> MappedPage(ram1, dirs, pool, kind, cr3, j);
      assert pool.IsUsed(j);
      PoolWalkStep(boot, ram1, ram2, dirs, pools, kind, cr3, b + i, None, j);
    }
    OffRunExtend(boot, ram0, ram1, ram2, dirs, cr3, b, i, None);
    SameTablesSameFrames(ram1, ram2, dirs);
    DataKeptTrans(ram0, ram1, ram2, dirs);
    assert SameTables(ram0, ram2, dirs);
    hide SameTables;
    forall j | b + i + 1 <= j < b + count ensures MappedPage(ram2, dirs, pool, kind, cr3, j) {
      assert MappedPage(ram1, dirs, pool, kind, cr3, j);
    }
  }

  lemma FreeFramesStep(ram0: Ram, mem0: Pool, mem: Pool, cr3: Frame, b: nat, i: nat, f: Frame)
    requires IsRam(ram0) && FreeFrames(ram0, mem0, mem, cr3, b, i) && b + i < FRAMES
    requires Walk(ram0, cr3, PageAt(b + i)) == Some(f) && mem.IsUsed(f)
    ensures FreeFrames(ram0, mem0, mem.With(f, false), cr3, b, i + 1)
  {
    WithCount(mem, f, false);
    hide Walk, PageAt, IsRam, CountFree;
    forall x ensures RunHas(ram0, cr3, b, i + 1, x) <==> RunHas(ram0, cr3, b, i, x) || f == x {
      RunHasExtend(ram0, cr3, b, i, x);
    }
    hide RunHas;
  }

  lemma FreeLoopStep(boot: Frame, ram0: Ram, ram1: Ram, ram2: Ram, dirs: set<Frame>, pools0: Pools, pools1: Pools,
                     pools2: Pools, kind: PoolType, cr3: Frame, b: nat, count: nat, i: nat)
    requires IsRam(ram0) && Inv(boot, ram1, dirs, pools1) && IsRam(ram2) && cr3 in dirs
    requires (kind.User? ==> cr3 in pools0.usrAddr && cr3 in pools1.usrAddr)
    requires FreeLoop(boot, ram0, ram1, dirs, pools0, pools1, kind, cr3, b, count, i) && i < count && b + i < FRAMES
    requires Walk(ram1, cr3, PageAt(b + i)).Some?
    requires var f := Walk(ram1, cr3, PageAt(b + i)).value;
      MemPool(pools1, kind).IsUsed(f) && pools2 == WithMemPool(pools1, kind, MemPool(pools1, kind).With(f, false))
    requires WalksChangedAt(boot, ram1, ram2, dirs, cr3, PageAt(b + i), None)
    requires SameTables(ram1, ram2, dirs) && DataKept(ram1, ram2, dirs)
    ensures FreeLoop(boot, ram0, ram2, dirs, pools0, pools2, kind, cr3, b, count, i + 1)
  {
    assert AddrPool(pools1, kind, cr3) == AddrPool(pools0, kind, cr3);
    var f := Walk(ram1, cr3, PageAt(b + i)).value;
    assert Walk(ram0, cr3, PageAt(b + i)) == Some(f);
    FreeWalksStep(boot, ram0, ram1, ram2, dirs, pools1, kind, cr3, b, count, i);
    FreeFramesStep(ram0, MemPool(pools0, kind), MemPool(pools1, kind), cr3, b, i, f);
  }

  lemma FreeLoopEnd(boot: Frame, ram0: Ram, ram: Ram, dirs: set<Frame>, pools0: Pools, pools: Pools,
                    kind: PoolType, cr3: Frame, b: nat, count: nat)
    requires IsRam(ram0) && IsRam(ram) && (kind.User? ==> cr3 in pools0.usrAddr) && count > 0
    requires FreeLoop(boot, ram0, ram, dirs, pools0, pools, kind, cr3, b, count, count)
    ensures kind.User? ==> cr3 in pools.usrAddr
    ensures var pool := AddrPool(pools, kind, cr3);
      && pool == AddrPool(pools0, kind, cr3) && pool.start <= b && b - pool.start + count <= |pool.bits|
      && b + count <= FRAMES && forall j :: b <= j < b + count ==> Walk(ram, cr3, PageAt(j)).None?
    ensures FreeFrames(ram0, MemPool(pools0, kind), MemPool(pools, kind), cr3, b, count)
    ensures pools == WithMemPool(pools0, kind, MemPool(pools, kind))
    ensures OffRunSame(boot, ram0, ram, dirs, cr3, b, count) && SameTables(ram0, ram, dirs) && DataKept(ram0, ram, dirs)
  {
    var pool := AddrPool(pools0, kind, cr3);
    assert pool == AddrPool(pools, kind, cr3);
    hide Walk, IsRam, PageAt, OffRunSame, SameTables, DataKept, FreeFrames;
    assert pool.IsUsed(b) && pool.IsUsed(b + count - 1);
  }

  /** The pools once a run has been freed. */
  ghost predicate Freed(pools: Pools, pools': Pools, kind: PoolType, cr3: Frame, b: nat, count: nat)
    requires kind.User? ==> cr3 in pools.usrAddr
  {
    var pool := AddrPool(pools, kind, cr3);
    && pool.start <= b && b - pool.start + count <= |pool.bits|
    && pools' == WithAddrPool(WithMemPool(pools, kind, MemPool(pools', kind)), kind, cr3,
                              Pool(pool.start, Mark(pool.bits, b - pool.start, count, false)))
    && MemPool(pools', kind).start == MemPool(pools, kind).start &&
       |MemPool(pools', kind).bits| == |MemPool(pools, kind).bits|
  }

  /** Gives the pages of a run back to the address pool. */
  method FreeAddr(m: Memory, kind: PoolType, b: nat, count: nat)
    requires Valid(m) && HasPools(m, kind)
    requires var pool := AddrPool(m.pools, kind, m.cr3); pool.start <= b && b - pool.start + count <= |pool.bits|
    requires b + count <= FRAMES && forall j :: b <= j < b + count ==> Walk(m.ram, m.cr3, PageAt(j)).None?
    modifies m`pools
    ensures Valid(m) && HasPools(m, kind)
    ensures var pool := AddrPool(old(m.pools), kind, m.cr3);
      m.pools == WithAddrPool(old(m.pools), kind, m.cr3,
                              Pool(pool.start, Mark(pool.bits, b - pool.start, count, false)))
  {
    hide FramesOk, UserOk, KernelOk, SpacesOk, IsRam, Walk, Mark, PageAt;
    var pool := AddrPool(m.pools, kind, m.cr3);
    FreeAddrKeepsInv(m.boot, m.ram, m.dirs, m.pools, kind, m.cr3, b, count);
    m.pools := WithAddrPool(m.pools, kind, m.cr3, Pool(pool.start, Mark(pool.bits, b - pool.start, count, false)));
  }

  /** Unmarking a run of unmapped pages keeps the invariant. */
  lemma FreeAddrKeepsInv(boot: Frame, ram: Ram, dirs: set<Frame>, pools: Pools, kind: PoolType, cr3: Frame, b: nat,
                         count: nat)
    requires Inv(boot, ram, dirs, pools) && cr3 in dirs && (kind.User? ==> cr3 in pools.usrAddr)
    requires var pool := AddrPool(pools, kind, cr3); pool.start <= b && b - pool.start + count <= |pool.bits|
    requires b + count <= FRAMES && forall j :: b <= j < b + count ==> Walk(ram, cr3, PageAt(j)).None?
    ensures var pool := AddrPool(pools, kind, cr3);
      Inv(boot, ram, dirs,
          WithAddrPool(pools, kind, cr3, Pool(pool.start, Mark(pool.bits, b - pool.start, count, false))))
  {
    hide FramesOk, UserOk, KernelOk, SpacesOk, IsRam, Walk, PageAt, NumberOf, Mark;
    var pool := AddrPool(pools, kind, cr3);
    MappedStayMarked(ram, cr3, pool, b, count);
    AddrPoolKeepsInv(boot, ram, dirs, pools, kind, cr3,
      Pool(pool.start, Mark(pool.bits, b - pool.start, count, false)));
  }

  lemma MappedStayMarked(ram: Ram, cr3: Frame, pool: Pool, b: nat, count: nat)
    requires IsRam(ram) && pool.start <= b && b - pool.start + count <= |pool.bits|
    requires b + count <= FRAMES && forall j :: b <= j < b + count ==> Walk(ram, cr3, PageAt(j)).None?
    ensures var pool' := Pool(pool.start, Mark(pool.bits, b - pool.start, count, false));
      forall p: VPage :: pool.IsUsed(NumberOf(p)) && Walk(ram, cr3, p).Some? ==> pool'.IsUsed(NumberOf(p))
  {
    var pool' := Pool(pool.start, Mark(pool.bits, b - pool.start, count, false));
    hide IsRam, Walk, PageAt, NumberOf;
    forall p: VPage | pool.IsUsed(NumberOf(p)) && Walk(ram, cr3, p).Some? ensures pool'.IsUsed(NumberOf(p)) {
      MappedOffRun(ram, cr3, b, count, p);
    }
  }

  /** A mapped page is none of a run of unmapped ones. */
  lemma MappedOffRun(ram: Ram, cr3: Frame, b: nat, count: nat, p: VPage)
    requires IsRam(ram) && Walk(ram, cr3, p).Some? && b + count <= FRAMES
    requires forall j :: b <= j < b + count ==> Walk(ram, cr3, PageAt(j)).None?
    ensures !(b <= NumberOf(p) < b + count)
  {
    PageNumbers(0, p);
    assert PageAt(NumberOf(p)) == p;
    hide Walk, IsRam, NumberOf, PageAt;
  }

  // Allocating.

  /** The pools with a run of the address pool, from slot `k` on, marked. */
  function RunMarked(pools: Pools, kind: PoolType, cr3: Frame, k: nat, count: nat): Pools
    requires (kind.User? ==> cr3 in pools.usrAddr) && k + count <= |AddrPool(pools, kind, cr3).bits|
  {
    var pool := AddrPool(pools, kind, cr3);
    WithAddrPool(pools, kind, cr3, Pool(pool.start, Mark(pool.bits, k, count, true)))
  }

  /** Marks the leftmost free run of pages. */
  method AllocAddr(m: Memory, kind: PoolType, count: nat) returns (r: Option<nat>)
    requires Valid(m) && HasPools(m, kind) && count > 0
    modifies m`pools
    ensures Valid(m) && HasPools(m, kind)
    ensures var pool := AddrPool(old(m.pools), kind, m.cr3);
      match FindRun(pool.bits, count)
      case None => r.None? && m.pools == old(m.pools)
      case Some(k) =>
        && r == Some(pool.start + k) && IsFreeRun(pool.bits, k, count)
        && m.pools == RunMarked(old(m.pools), kind, m.cr3, k, count)
  {
    hide FramesOk, UserOk, KernelOk, SpacesOk, IsRam, Walk, NumberOf, FindRun;
    var pool := AddrPool(m.pools, kind, m.cr3);
    var k := FindRun(pool.bits, count);
    FindRunCharacterised(pool.bits, count, k);
    if k.None? {
      return None;
    }
    var pool' := Pool(pool.start, Mark(pool.bits, k.value, count, true));
    AddrPoolKeepsInv(m.boot, m.ram, m.dirs, m.pools, kind, m.cr3, pool');
    hide Mark;
    m.pools := WithAddrPool(m.pools, kind, m.cr3, pool');
    r := Some(pool.start + k.value);
  }

  /** The address space after `i` pages of the run have been mapped. */
  ghost predicate AllocWalks(boot: Frame, ram0: Ram, ram: Ram, dirs: set<Frame>, pool: Pool, mem0: Pool,
                             cr3: Frame, b: nat, count: nat, i: nat)
    requires IsRam(ram0) && IsRam(ram)
  {
    && RunBacked(boot, ram0, ram, dirs, pool, mem0, cr3, b, count, i)
    && DataKept(ram0, ram, dirs)
  }

  /** The first `i` pages of a marked run have frames that were free in `mem0`; nothing else is mapped anew. */
  ghost predicate RunBacked(boot: Frame, ram0: Ram, ram: Ram, dirs: set<Frame>, pool: Pool, mem0: Pool,
                            cr3: Frame, b: nat, count: nat, i: nat)
    requires IsRam(ram0) && IsRam(ram)
  {
    && i <= count && b + count <= FRAMES
    && (forall j :: b <= j < b + count ==> pool.IsUsed(j))
    && (forall j :: b <= j < b + i ==> Walk(ram, cr3, PageAt(j)).Some? && mem0.IsFree(Walk(ram, cr3, PageAt(j)).value))
    && (forall j :: b + i <= j < b + count ==> Walk(ram, cr3, PageAt(j)).None?)
    && OffRunSame(boot, ram0, ram, dirs, cr3, b, i)
  }

  /** Frames that were in use and hold no directory and no table keep their content. */
  ghost predicate UsedDataKept(ram: Ram, ram': Ram, dirs: set<Frame>, mem0: Pool)
    requires IsRam(ram) && IsRam(ram')
  {
    forall f: Frame :: f !in dirs && !IsTable(ram', dirs, f) && !mem0.IsFree(f) ==> FrameAt(ram', f) == FrameAt(ram, f)
  }

  /** The frame pool after frames for `i` pages have been taken. */
  ghost predicate AllocFrames(ram: Ram, mem0: Pool, mem: Pool, cr3: Frame, b: nat, i: nat)
    requires IsRam(ram)
  {
    && mem.start == mem0.start && |mem.bits| == |mem0.bits|
    && (forall x :: mem0.Has(x) ==> (mem.IsUsed(x) <==> mem0.IsUsed(x) || RunHas(ram, cr3, b, i, x)))
    && CountFree(mem.bits) + i == CountFree(mem0.bits)
  }

  /** The address pools of all processes but `cr3` are the same. */
  ghost predicate SameOthers(usr: map<Frame, Pool>, usr': map<Frame, Pool>, cr3: Frame) {
    forall dir :: dir != cr3 ==> (dir in usr' <==> dir in usr) && (dir in usr ==> usr'[dir] == usr[dir])
  }

  /** The pools of the other kind: the kernel's frames may only have been taken for page tables. */
  ghost predicate OthersKept(pools0: Pools, pools: Pools, kind: PoolType, cr3: Frame) {
    if kind.Kernel? then pools.usrMem == pools0.usrMem && pools.usrAddr == pools0.usrAddr
    else
      && pools.krnlAddr == pools0.krnlAddr && SameOthers(pools0.usrAddr, pools.usrAddr, cr3)
      && pools.usrAddr.Keys == pools0.usrAddr.Keys
      && pools.krnlMem.start == pools0.krnlMem.start && |pools.krnlMem.bits| == |pools0.krnlMem.bits|
      && forall x :: pools0.krnlMem.IsUsed(x) ==> pools.krnlMem.IsUsed(x)
  }

  lemma AllocWalksStep(boot: Frame, ram0: Ram, ram1: Ram, ram2: Ram, dirs: set<Frame>, pools: Pools, mem0: Pool,
                       kind: PoolType, cr3: Frame, b: nat, count: nat, i: nat, f: Frame)
    requires IsRam(ram0) && Inv(boot, ram1, dirs, pools) && IsRam(ram2) && cr3 in dirs
    requires (kind.User? ==> cr3 in pools.usrAddr)
    requires AllocWalks(boot, ram0, ram1, dirs, AddrPool(pools, kind, cr3), mem0, cr3, b, count, i) && i < count
    requires WalksChangedAt(boot, ram1, ram2, dirs, cr3, PageAt(b + i), Some(f)) && mem0.IsFree(f)
    requires DataKept(ram1, ram2, dirs) && forall g: nat :: IsTable(ram1, dirs, g) ==> IsTable(ram2, dirs, g)
    ensures AllocWalks(boot, ram0, ram2, dirs, AddrPool(pools, kind, cr3), mem0, cr3, b, count, i + 1)
    ensures forall j :: b <= j < b + i ==> Walk(ram2, cr3, PageAt(j)) == Walk(ram1, cr3, PageAt(j))
    ensures Walk(ram2, cr3, PageAt(b + i)) == Some(f)
  {
    hide Walk, FramesOk, UserOk, KernelOk, SpacesOk, IsRam, PageAt, TableOf, WalksChangedAt, OffRunSame, DataKept,
      IsTable;
    var pool := AddrPool(pools, kind, cr3);
    assert pool.IsUsed(b + i);
    forall j | b <= j < b + count
      ensures Walk(ram2, cr3, PageAt(j)) == if j == b + i then Some(f) else Walk(ram1, cr3, PageAt(j))
    {
      assert pool.IsUsed(j);
      PoolWalkStep(boot, ram1, ram2, dirs, pools, kind, cr3, b + i, Some(f), j);
    }
    OffRunExtend(boot, ram0, ram1, ram2, dirs, cr3, b, i, Some(f));
    DataKeptTrans(ram0, ram1, ram2, dirs);
  }

  lemma RunHasSame(ram1: Ram, ram2: Ram, cr3: Frame, b: nat, i: nat, x: int)
    requires IsRam(ram1) && IsRam(ram2) && b + i <= FRAMES
    requires forall j :: b <= j < b + i ==> Walk(ram2, cr3, PageAt(j)) == Walk(ram1, cr3, PageAt(j))
    ensures RunHas(ram2, cr3, b, i, x) <==> RunHas(ram1, cr3, b, i, x)
  {
    hide Walk, IsRam, PageAt;
    if RunHas(ram2, cr3, b, i, x) {
      var j :| b <= j < b + i && j < FRAMES && Walk(ram2, cr3, PageAt(j)).Some? &&
        Walk(ram2, cr3, PageAt(j)).value == x;
      assert Walk(ram1, cr3, PageAt(j)).value == x;
    }
    if RunHas(ram1, cr3, b, i, x) {
      var j :| b <= j < b + i && j < FRAMES && Walk(ram1, cr3, PageAt(j)).Some? &&
        Walk(ram1, cr3, PageAt(j)).value == x;
      assert Walk(ram2, cr3, PageAt(j)).value == x;
    }
  }

  lemma AllocFramesStep(ram1: Ram, ram2: Ram, mem0: Pool, mem: Pool, cr3: Frame, b: nat, i: nat, f: Frame)
    requires IsRam(ram1) && IsRam(ram2) && AllocFrames(ram1, mem0, mem, cr3, b, i) && b + i < FRAMES
    requires forall j :: b <= j < b + i ==> Walk(ram2, cr3, PageAt(j)) == Walk(ram1, cr3, PageAt(j))
    requires Walk(ram2, cr3, PageAt(b + i)) == Some(f) && mem.IsFree(f)
    ensures AllocFrames(ram2, mem0, mem.With(f, true), cr3, b, i + 1) && mem0.IsFree(f)
  {
    WithCount(mem, f, true);
    hide Walk, PageAt, IsRam, CountFree;
    forall x ensures RunHas(ram2, cr3, b, i + 1, x) <==> RunHas(ram1, cr3, b, i, x) || f == x {
      RunHasExtend(ram2, cr3, b, i, x);
      RunHasSame(ram1, ram2, cr3, b, i, x);
    }
    hide RunHas;
    assert mem0.Has(f);
  }

  /** The pages of a run hold zeros. */
  ghost predicate ZeroRun(ram: Ram, cr3: Frame, b: nat, count: nat)
    requires IsRam(ram)
  {
    forall j :: b <= j < b + count && j < FRAMES && Walk(ram, cr3, PageAt(j)).Some? ==>
      FrameAt(ram, Walk(ram, cr3, PageAt(j)).value) == ZeroPage()
  }

  /** Writing to a frame that is no directory and no table keeps the invariant and all translations. */
  lemma DataWriteKeepsInv(boot: Frame, ram: Ram, dirs: set<Frame>, pools: Pools, f: Frame, content: seq<Word>)
    requires Inv(boot, ram, dirs, pools) && f !in dirs && !IsTable(ram, dirs, f) && |content| == ENTRIES
    ensures Inv(boot, PutFrame(ram, f, content), dirs, pools)
    ensures forall dir, p: VPage :: dir in dirs && p.d < SELF_REF ==>
      Walk(PutFrame(ram, f, content), dir, p) == Walk(ram, dir, p)
    ensures SameTables(ram, PutFrame(ram, f, content), dirs)
  {
    var ram' := PutFrame(ram, f, content);
    SpacesFrame(boot, ram, ram', dirs);
    forall dir, p: VPage | dir in dirs && p.d < SELF_REF ensures Walk(ram', dir, p) == Walk(ram, dir, p) {
      if TableOf(ram, dir, p.d).Some? {
        assert TableOf(ram, dir, p.d).value != f;
      }
    }
    SameTablesSameFrames(ram, ram', dirs);
    BootIn(boot, ram, dirs);
    KernelPagesBelowSelf(pools);
    hide Walk, TableOf, IsTable, IsRam, SpacesOk, NumberOf, UserOk, KernelOk, FramesOk;
    UserSame(boot, ram, ram', dirs, pools, pools);
    KernelSame(boot, ram, ram', dirs, dirs, pools, pools);
    FramesSame(ram, ram', dirs, pools, pools);
  }

  /** The frame of a page that a pool hands out is no directory's table, and no directory unless it is one's page. */
  lemma PoolFrame(boot: Frame, ram: Ram, dirs: set<Frame>, pools: Pools, kind: PoolType, cr3: Frame, n: nat)
    requires Inv(boot, ram, dirs, pools) && cr3 in dirs && (kind.User? ==> cr3 in pools.usrAddr)
    requires AddrPool(pools, kind, cr3).Has(n) && n < FRAMES && Walk(ram, cr3, PageAt(n)).Some?
    ensures !IsTable(ram, dirs, Walk(ram, cr3, PageAt(n)).value)
    ensures MemPool(pools, kind).IsUsed(Walk(ram, cr3, PageAt(n)).value)
    ensures kind.User? ==> Walk(ram, cr3, PageAt(n)).value !in dirs
  {
    PoolPages(boot, ram, dirs, pools, kind, cr3, n);
    BootIn(boot, ram, dirs);
    if kind.Kernel? {
      KernelPagesShared(boot, ram, dirs, cr3, boot, PageAt(n));
    } else {
      assert IsUserPage(boot, cr3, PageAt(n));
    }
  }

  /** What an allocation leaves: `b` is the page number it returns. */
  twostate predicate Allocated(m: Memory, kind: PoolType, b: nat, count: nat)
    requires IsRam(old(m.ram)) && IsRam(m.ram)
    requires (kind.User? ==> m.cr3 in old(m.pools).usrAddr && m.cr3 in m.pools.usrAddr)
    reads m
  {
    var pool := AddrPool(old(m.pools), kind, m.cr3);
    && pool.start <= b && IsFreeRun(pool.bits, b - pool.start, count)
    && AddrPool(m.pools, kind, m.cr3) == Pool(pool.start, Mark(pool.bits, b - pool.start, count, true))
    && RunBacked(m.boot, old(m.ram), m.ram, m.dirs, AddrPool(m.pools, kind, m.cr3), MemPool(old(m.pools), kind),
                 m.cr3, b, count, count)
    && UsedDataKept(old(m.ram), m.ram, m.dirs, MemPool(old(m.pools), kind))
    && AllocFrames(m.ram, MemPool(old(m.pools), kind), MemPool(m.pools, kind), m.cr3, b, count)
    && OthersKept(old(m.pools), m.pools, kind, m.cr3)
  }

  /** The state of the mapping loop after `i` pages. */
  ghost predicate MapLoop(boot: Frame, ram0: Ram, ram: Ram, dirs: set<Frame>, pools0: Pools, pools: Pools,
                          kind: PoolType, cr3: Frame, b: nat, count: nat, i: nat)
    requires IsRam(ram0) && IsRam(ram) && (kind.User? ==> cr3 in pools0.usrAddr && cr3 in pools.usrAddr)
  {
    && AddrPool(pools, kind, cr3) == AddrPool(pools0, kind, cr3)
    && OthersKept(pools0, pools, kind, cr3)
    && AllocWalks(boot, ram0, ram, dirs, AddrPool(pools0, kind, cr3), MemPool(pools0, kind), cr3, b, count, i)
    && AllocFrames(ram, MemPool(pools0, kind), MemPool(pools, kind), cr3, b, i)
    && TablesSpent(ram0, ram, pools0, pools, kind, cr3, b, i)
    && (i == 0 ==> ram == ram0 && pools == pools0)
    && (kind.Kernel? ==> SameTables(ram0, ram, dirs))
  }

  /** The kernel has stopped at page `i` of the run, which has taken a frame but cannot get a table. */
  ghost predicate StoppedAt(boot: Frame, ram0: Ram, ram: Ram, dirs: set<Frame>, pools0: Pools, pools: Pools,
                            cr3: Frame, b: nat, count: nat, i: nat)
    requires IsRam(ram0) && IsRam(ram) && cr3 in pools0.usrAddr
  {
    exists before: Pools ::
      && cr3 in before.usrAddr && Inv(boot, ram, dirs, before)
      && MapLoop(boot, ram0, ram, dirs, pools0, before, User, cr3, b, count, i)
      && FrameTaken(before, pools, User)
  }

  /** Maps the marked run to new frames; stops early when one cannot be had. */
  method MapRun(m: Memory, kind: PoolType, b: nat, count: nat) returns (r: MapResult, i: nat)
    requires Valid(m) && HasPools(m, kind) && 0 < count && b + count <= FRAMES
    requires forall j :: b <= j < b + count ==>
      AddrPool(m.pools, kind, m.cr3).IsUsed(j) && Walk(m.ram, m.cr3, PageAt(j)).None?
    modifies m`ram, m`pools
    ensures i <= count && IsRam(m.ram)
    ensures r.NoTable? <==> TablesShort(old(m.ram), old(m.pools), kind, m.cr3, b, count)
    ensures r.NoTable? ==>
      kind.User? && StoppedAt(m.boot, old(m.ram), m.ram, m.dirs, old(m.pools), m.pools, m.cr3, b, count, i)
    ensures !r.NoTable? ==> i == Backed(old(m.pools), kind, count) && (r.Mapped? <==> i == count)
    ensures !r.NoTable? ==>
      && Valid(m) && HasPools(m, kind)
      && MapLoop(m.boot, old(m.ram), m.ram, m.dirs, old(m.pools), m.pools, kind, m.cr3, b, count, i)
      && RunOpen(m.ram, m.cr3, b, i)
  {
    hide StoppedAt, TablesShort, FrameTaken;
    hide Walk, FramesOk, UserOk, KernelOk, SpacesOk, IsRam, PageAt, TableOf, WalksChangedAt, OffRunSame, DataKept,
      IsTable, CountFree, SameTables, MapLoop, IsOpen, PageStored;
    ghost var ram0, pools0 := m.ram, m.pools;
    i := 0;
    AllocStart(m, kind, b, count);
    r := NoFrame;
    while i != count
      invariant i <= count && Valid(m) && HasPools(m, kind)
      invariant MapLoop(m.boot, ram0, m.ram, m.dirs, pools0, m.pools, kind, m.cr3, b, count, i)
      invariant RunOpen(m.ram, m.cr3, b, i)
      decreases count - i
    {
      ghost var ram1, pools1 := m.ram, m.pools;
      AllocNext(m.boot, ram0, m.ram, m.dirs, pools0, m.pools, kind, m.cr3, b, count, i);
      r := AllocAndMap(m, kind, b + i);
      if !r.Mapped? {
        MapRunStops(m.boot, ram0, m.ram, m.dirs, pools0, pools1, m.pools, kind, m.cr3, b, count, i, r);
        return;
      }
      RunSpent(m.boot, ram0, ram1, m.ram, m.dirs, pools0, pools1, m.pools, kind, m.cr3, b, count, i, r.frame);
      AllocLoopStep(m.boot, ram0, ram1, m.ram, m.dirs, pools0, pools1, m.pools, kind, m.cr3, b, count, i, r.frame);
      MapLoopOpen(m.boot, ram0, ram1, m.ram, m.dirs, pools0, pools1, m.pools, kind, m.cr3, b, count, i, r.frame);
      i := i + 1;
    }
    MapRunEnds(m.boot, ram0, m.ram, m.dirs, pools0, m.pools, kind, m.cr3, b, count, i);
    r := Mapped(0);
  }

  /** The pages mapped so far are open to user code. */
  lemma MapLoopOpen(boot: Frame, ram0: Ram, ram1: Ram, ram2: Ram, dirs: set<Frame>, pools0: Pools, pools1: Pools,
                    pools2: Pools, kind: PoolType, cr3: Frame, b: nat, count: nat, i: nat, f: Frame)
    requires IsRam(ram0) && Inv(boot, ram1, dirs, pools1) && Inv(boot, ram2, dirs, pools2) && cr3 in dirs
    requires kind.User? ==> cr3 in pools0.usrAddr && cr3 in pools2.usrAddr
    requires MapLoop(boot, ram0, ram2, dirs, pools0, pools2, kind, cr3, b, count, i + 1) && b + i < FRAMES
    requires PageStored(ram1, ram2, cr3, (b + i) / 1024, (b + i) % 1024, f) && RunOpen(ram1, cr3, b, i)
    ensures RunOpen(ram2, cr3, b, i + 1)
  {
    hide Walk, FramesOk, UserOk, KernelOk, SpacesOk, IsRam, PageAt, OffRunSame, DataKept, TablesSpent, AllocFrames,
      SameTables, OthersKept, PageStored, IsOpen;
    RunPages(boot, ram2, dirs, pools2, kind, cr3, b, i + 1);
    hide RunOpen;
    RunOpenMore(boot, ram1, ram2, dirs, cr3, b, i, f);
  }

  lemma MapRunEnds(boot: Frame, ram0: Ram, ram: Ram, dirs: set<Frame>, pools0: Pools, pools: Pools,
                   kind: PoolType, cr3: Frame, b: nat, count: nat, i: nat)
    requires IsRam(ram0) && IsRam(ram) && (kind.User? ==> cr3 in pools0.usrAddr && cr3 in pools.usrAddr)
    requires MapLoop(boot, ram0, ram, dirs, pools0, pools, kind, cr3, b, count, i)
    requires i == count || (i < count && CountFree(MemPool(pools, kind).bits) == 0)
    ensures i == Backed(pools0, kind, count) && !TablesShort(ram0, pools0, kind, cr3, b, count)
  {
    hide IsRam, AllocWalks, TablesSpent, SameTables, OthersKept, RunHas, CountFree, TablesShort;
    assert CountFree(MemPool(pools, kind).bits) + i == CountFree(MemPool(pools0, kind).bits);
    hide AllocFrames;
    NotShort(ram0, ram, pools0, pools, kind, cr3, b, count, i);
  }

  /** Why the mapping loop stops early: there is no frame for the page, or none for its table. */
  lemma MapRunStops(boot: Frame, ram0: Ram, ram: Ram, dirs: set<Frame>, pools0: Pools, pools: Pools, pools': Pools,
                    kind: PoolType, cr3: Frame, b: nat, count: nat, i: nat, r: MapResult)
    requires IsRam(ram0) && Inv(boot, ram, dirs, pools)
    requires kind.User? ==> cr3 in pools0.usrAddr && cr3 in pools.usrAddr
    requires MapLoop(boot, ram0, ram, dirs, pools0, pools, kind, cr3, b, count, i) && i < count && b + i < FRAMES
    requires AddrPool(pools, kind, cr3).IsUsed(b + i)
    requires r.NoFrame? ==> CountFree(MemPool(pools, kind).bits) == 0
    requires r.NoTable? ==> FrameTaken(pools, pools', kind) && kind.User? && CountFree(MemPool(pools, kind).bits) > 0
    requires r.NoTable? ==> TableOf(ram, cr3, PageAt(b + i).d).None? && CountFree(pools.krnlMem.bits) == 0
    ensures r.NoFrame? ==> i == Backed(pools0, kind, count) && !TablesShort(ram0, pools0, kind, cr3, b, count)
    ensures r.NoTable? ==> TablesShort(ram0, pools0, kind, cr3, b, count)
    ensures r.NoTable? ==> StoppedAt(boot, ram0, ram, dirs, pools0, pools', cr3, b, count, i)
  {
    hide FramesOk, UserOk, KernelOk, SpacesOk, IsRam, PageAt, TableOf, AllocWalks, TablesSpent, SameTables, OthersKept,
      RunHas, CountFree, TablesShort, FrameTaken;
    PoolPages(boot, ram, dirs, pools, kind, cr3, b + i);
    assert CountFree(MemPool(pools, kind).bits) + i == CountFree(MemPool(pools0, kind).bits);
    if r.NoFrame? {
      MapRunEnds(boot, ram0, ram, dirs, pools0, pools, kind, cr3, b, count, i);
    } else if r.NoTable? {
      assert i < Backed(pools0, kind, count);
      StopsShort(ram0, ram, pools0, pools, kind, cr3, b, count, i);
    }
  }

  lemma SameTablesTrans(ram0: Ram, ram1: Ram, ram2: Ram, dirs: set<Frame>)
    requires IsRam(ram0) && IsRam(ram1) && IsRam(ram2) && SameTables(ram0, ram1, dirs) && SameTables(ram1, ram2, dirs)
    ensures SameTables(ram0, ram2, dirs)
  {
    hide TableOf, IsRam;
  }

  lemma AllocStart(m: Memory, kind: PoolType, b: nat, count: nat)
    requires Valid(m) && HasPools(m, kind) && b + count <= FRAMES
    requires forall j :: b <= j < b + count ==>
      AddrPool(m.pools, kind, m.cr3).IsUsed(j) && Walk(m.ram, m.cr3, PageAt(j)).None?
    ensures MapLoop(m.boot, m.ram, m.ram, m.dirs, m.pools, m.pools, kind, m.cr3, b, count, 0)
  {
    NothingSpent(m.ram, m.pools, kind, m.cr3, b);
    hide TablesSpent;
  }

  lemma AllocNext(boot: Frame, ram0: Ram, ram: Ram, dirs: set<Frame>, pools0: Pools, pools: Pools,
                  kind: PoolType, cr3: Frame, b: nat, count: nat, i: nat)
    requires IsRam(ram0) && IsRam(ram) && (kind.User? ==> cr3 in pools0.usrAddr && cr3 in pools.usrAddr)
    requires MapLoop(boot, ram0, ram, dirs, pools0, pools, kind, cr3, b, count, i) && i < count
    ensures AddrPool(pools, kind, cr3).IsUsed(b + i) && b + i < FRAMES && Walk(ram, cr3, PageAt(b + i)).None?
    ensures CountFree(MemPool(pools, kind).bits) + i == CountFree(MemPool(pools0, kind).bits)
  {
    hide TablesSpent;
  }

  lemma AllocLoopStep(boot: Frame, ram0: Ram, ram1: Ram, ram2: Ram, dirs: set<Frame>, pools0: Pools, pools1: Pools,
                      pools2: Pools, kind: PoolType, cr3: Frame, b: nat, count: nat, i: nat, f: Frame)
    requires IsRam(ram0) && Inv(boot, ram1, dirs, pools1) && IsRam(ram2) && cr3 in dirs
    requires kind.User? ==> cr3 in pools0.usrAddr && cr3 in pools1.usrAddr
    requires MapLoop(boot, ram0, ram1, dirs, pools0, pools1, kind, cr3, b, count, i) && i < count
    requires OneFrameTaken(pools1, pools2, kind, f)
    requires WalksChangedAt(boot, ram1, ram2, dirs, cr3, PageAt(b + i), Some(f)) && DataKept(ram1, ram2, dirs)
    requires forall g: nat :: IsTable(ram1, dirs, g) ==> IsTable(ram2, dirs, g)
    requires kind.Kernel? ==> SameTables(ram1, ram2, dirs)
    requires TablesSpent(ram0, ram2, pools0, pools2, kind, cr3, b, i + 1)
    ensures kind.User? ==> cr3 in pools2.usrAddr
    ensures MapLoop(boot, ram0, ram2, dirs, pools0, pools2, kind, cr3, b, count, i + 1)
  {
    hide Walk, FramesOk, UserOk, KernelOk, SpacesOk, IsRam, PageAt, TableOf, WalksChangedAt, OffRunSame, DataKept,
      IsTable, CountFree, RunHas, TablesSpent;
    assert MemPool(pools1, kind).IsFree(f) && MemPool(pools0, kind).Has(f);
    assert !MemPool(pools1, kind).IsUsed(f);
    AllocWalksStep(boot, ram0, ram1, ram2, dirs, pools1, MemPool(pools0, kind), kind, cr3, b, count, i, f);
    AllocFramesStep(ram1, ram2, MemPool(pools0, kind), MemPool(pools1, kind), cr3, b, i, f);
  }

  /** One more page of the run, and what it cost the kernel. */
  lemma RunSpent(boot: Frame, ram0: Ram, ram1: Ram, ram2: Ram, dirs: set<Frame>, pools0: Pools, pools1: Pools,
                 pools2: Pools, kind: PoolType, cr3: Frame, b: nat, count: nat, i: nat, f: Frame)
    requires IsRam(ram0) && Inv(boot, ram1, dirs, pools1) && IsRam(ram2)
    requires kind.User? ==> cr3 in pools0.usrAddr && cr3 in pools1.usrAddr
    requires MapLoop(boot, ram0, ram1, dirs, pools0, pools1, kind, cr3, b, count, i) && b + i < FRAMES
    requires AddrPool(pools1, kind, cr3).IsUsed(b + i)
    requires kind.Kernel? ==> TableOf(ram1, cr3, PageAt(b + i).d).Some?
    requires CountFree(MemPool(pools2, kind).bits) == CountFree(MemPool(pools1, kind).bits) - 1
    requires TableOf(ram1, cr3, PageAt(b + i).d).Some? ==>
      MemPool(pools1, kind).Has(f) && pools2 == WithMemPool(pools1, kind, MemPool(pools1, kind).With(f, true))
    requires TableOf(ram1, cr3, PageAt(b + i).d).None? ==>
      CountFree(pools2.krnlMem.bits) == CountFree(pools1.krnlMem.bits) - 1
    requires forall d :: 0 <= d < SELF_REF ==>
      (TableOf(ram2, cr3, d).Some? <==> TableOf(ram1, cr3, d).Some? || d == PageAt(b + i).d)
    ensures TablesSpent(ram0, ram2, pools0, pools2, kind, cr3, b, i + 1)
  {
    hide FramesOk, UserOk, KernelOk, SpacesOk, IsRam, PageAt, TableOf, AllocWalks, AllocFrames, TablesSpent, SameTables,
      CountFree;
    PoolPages(boot, ram1, dirs, pools1, kind, cr3, b + i);
    SpentMore(ram0, ram1, ram2, pools0, pools1, pools2, kind, cr3, b, i);
  }

  lemma RunPages(boot: Frame, ram: Ram, dirs: set<Frame>, pools: Pools, kind: PoolType, cr3: Frame, b: nat, count: nat)
    requires Inv(boot, ram, dirs, pools) && (kind.User? ==> cr3 in pools.usrAddr) && b + count <= FRAMES
    requires forall j :: b <= j < b + count ==> AddrPool(pools, kind, cr3).IsUsed(j)
    ensures forall j :: b <= j < b + count ==> PageAt(j).d < SELF_REF
  {
    hide PageAt, FramesOk, UserOk, KernelOk, SpacesOk, IsRam;
    forall j | b <= j < b + count ensures PageAt(j).d < SELF_REF {
      assert AddrPool(pools, kind, cr3).IsUsed(j);
      PoolPages(boot, ram, dirs, pools, kind, cr3, j);
    }
  }

  /** Clears the pages of a run that has just been mapped. */
  method ZeroPages(m: Memory, kind: PoolType, b: nat, count: nat, ghost ram0: Ram, ghost mem0: Pool)
    requires Valid(m) && HasPools(m, kind) && IsRam(ram0)
    requires AllocWalks(m.boot, ram0, m.ram, m.dirs, AddrPool(m.pools, kind, m.cr3), mem0, m.cr3, b, count, count)
    requires AllocFrames(m.ram, mem0, MemPool(m.pools, kind), m.cr3, b, count)
    requires forall x: nat :: mem0.IsFree(x) ==> x !in m.dirs
    requires RunOpen(m.ram, m.cr3, b, count)
    modifies m`ram
    ensures Valid(m) && HasPools(m, kind)
    ensures forall dir, p: VPage :: dir in m.dirs && p.d < SELF_REF ==> Walk(m.ram, dir, p) == Walk(old(m.ram), dir, p)
    ensures SameTables(old(m.ram), m.ram, m.dirs)
    ensures ZeroRun(m.ram, m.cr3, b, count) && RunOpen(m.ram, m.cr3, b, count)
    ensures forall f: Frame :: !mem0.IsFree(f) ==> FrameAt(m.ram, f) == FrameAt(old(m.ram), f)
  {
    hide Walk, FramesOk, UserOk, KernelOk, SpacesOk, IsRam, PageAt, TableOf, OffRunSame, DataKept, IsTable, CountFree,
      RunHas;
    hide FrameAt, PutFrame, RunOpen;
    RunPages(m.boot, m.ram, m.dirs, m.pools, kind, m.cr3, b, count);
    ghost var ram1 := m.ram;
    var i := 0;
    while i != count
      invariant i <= count && Valid(m) && HasPools(m, kind)
      invariant forall dir, p: VPage :: dir in m.dirs && p.d < SELF_REF ==> Walk(m.ram, dir, p) == Walk(ram1, dir, p)
      invariant SameTables(ram1, m.ram, m.dirs)
      invariant ZeroRun(m.ram, m.cr3, b, i) && RunOpen(m.ram, m.cr3, b, count)
      invariant forall f: Frame :: !mem0.IsFree(f) ==> FrameAt(m.ram, f) == FrameAt(ram1, f)
    {
      ZeroNext(m.boot, ram0, ram1, m.ram, m.dirs, m.pools, mem0, kind, m.cr3, b, count, i);
      var f := Walk(m.ram, m.cr3, PageAt(b + i)).value;
      DataWriteKeepsInv(m.boot, m.ram, m.dirs, m.pools, f, ZeroPage());
      RunOpenAfterWrite(m.boot, m.ram, m.dirs, m.cr3, f, ZeroPage(), b, count);
      ghost var before := m.ram;
      m.ram := PutFrame(m.ram, f, ZeroPage());
      assert forall j :: b <= j < b + count ==> AddrPool(m.pools, kind, m.cr3).IsUsed(j);
      ZeroRunStep(m.boot, before, m.ram, m.dirs, m.pools, kind, m.cr3, b, i, f);
      i := i + 1;
    }
  }

  lemma ZeroNext(boot: Frame, ram0: Ram, ram1: Ram, ram: Ram, dirs: set<Frame>, pools: Pools, mem0: Pool,
                 kind: PoolType, cr3: Frame, b: nat, count: nat, i: nat)
    requires IsRam(ram0) && IsRam(ram1) && Inv(boot, ram, dirs, pools) && cr3 in dirs
    requires (kind.User? ==> cr3 in pools.usrAddr)
    requires AllocWalks(boot, ram0, ram1, dirs, AddrPool(pools, kind, cr3), mem0, cr3, b, count, count)
    requires forall dir, p: VPage :: dir in dirs && p.d < SELF_REF ==> Walk(ram, dir, p) == Walk(ram1, dir, p)
    requires forall x: nat :: mem0.IsFree(x) ==> x !in dirs
    requires i < count
    ensures b + i < FRAMES && AddrPool(pools, kind, cr3).IsUsed(b + i) && PageAt(b + i).d < SELF_REF
    ensures Walk(ram, cr3, PageAt(b + i)).Some?
    ensures var f := Walk(ram, cr3, PageAt(b + i)).value; f !in dirs && !IsTable(ram, dirs, f) && mem0.IsFree(f)
  {
    hide Walk, FramesOk, UserOk, KernelOk, SpacesOk, IsRam, PageAt, OffRunSame, DataKept, IsTable;
    assert AddrPool(pools, kind, cr3).IsUsed(b + i);
    PoolPages(boot, ram, dirs, pools, kind, cr3, b + i);
    assert Walk(ram, cr3, PageAt(b + i)) == Walk(ram1, cr3, PageAt(b + i));
    PoolFrame(boot, ram, dirs, pools, kind, cr3, b + i);
  }

  lemma ZeroRunStep(boot: Frame, ram: Ram, ram': Ram, dirs: set<Frame>, pools: Pools, kind: PoolType, cr3: Frame,
                    b: nat, i: nat, f: Frame)
    requires IsRam(ram) && IsRam(ram') && ram' == PutFrame(ram, f, ZeroPage()) && b + i < FRAMES && cr3 in dirs
    requires Inv(boot, ram', dirs, pools) && (kind.User? ==> cr3 in pools.usrAddr)
    requires AddrPool(pools, kind, cr3).IsUsed(b + i)
    requires forall dir, p: VPage :: dir in dirs && p.d < SELF_REF ==> Walk(ram', dir, p) == Walk(ram, dir, p)
    requires Walk(ram, cr3, PageAt(b + i)) == Some(f) && ZeroRun(ram, cr3, b, i)
    requires forall j :: b <= j < b + i ==> AddrPool(pools, kind, cr3).IsUsed(j)
    ensures ZeroRun(ram', cr3, b, i + 1)
  {
    hide Walk, FramesOk, UserOk, KernelOk, SpacesOk, IsRam, PageAt, FrameAt, PutFrame;
    forall j | b <= j < b + i + 1 ensures j < FRAMES && Walk(ram', cr3, PageAt(j)) == Walk(ram, cr3, PageAt(j)) {
      assert AddrPool(pools, kind, cr3).IsUsed(j);
      PoolPages(boot, ram', dirs, pools, kind, cr3, j);
    }
  }

  lemma PoolEqual(pool: Pool, pool': Pool)
    requires pool.start == pool'.start && |pool.bits| == |pool'.bits|
    requires forall x :: pool.Has(x) ==> (pool.IsUsed(x) <==> pool'.IsUsed(x))
    ensures pool == pool'
  {
    forall k | 0 <= k < |pool.bits| ensures pool.bits[k] == pool'.bits[k] {
      assert pool.Has(pool.start + k);
    }
  }

  /** A rolled back run has the translations that it had before. */
  lemma RollbackWalks(boot: Frame, ram0: Ram, ram2: Ram, ram3: Ram, dirs: set<Frame>, pools0: Pools, kind: PoolType,
                      cr3: Frame, b: nat, i: nat)
    requires Inv(boot, ram0, dirs, pools0) && IsRam(ram2) && IsRam(ram3) && SpacesOk(boot, ram3, dirs) && cr3 in dirs
    requires kind.User? ==> cr3 in pools0.usrAddr
    requires forall j :: b <= j < b + i ==> AddrPool(pools0, kind, cr3).IsFree(j)
    requires OffRunSame(boot, ram0, ram2, dirs, cr3, b, i) && OffRunSame(boot, ram2, ram3, dirs, cr3, b, i)
    requires forall j :: b <= j < b + i && j < FRAMES ==> Walk(ram3, cr3, PageAt(j)).None?
    ensures forall dir, p: VPage :: dir in dirs && p.d < SELF_REF ==> Walk(ram3, dir, p) == Walk(ram0, dir, p)
  {
    hide Walk, FramesOk, UserOk, KernelOk, SpacesOk, IsRam, PageAt, SamePage;
    forall dir, p: VPage | dir in dirs && p.d < SELF_REF ensures Walk(ram3, dir, p) == Walk(ram0, dir, p) {
      if OnRun(boot, dir, p, cr3, b, i) {
        var j :| b <= j < b + i && j < FRAMES && SamePage(boot, dir, p, cr3, PageAt(j));
        assert AddrPool(pools0, kind, cr3).IsFree(j);
        PoolPages(boot, ram0, dirs, pools0, kind, cr3, j);
        UnmarkedUnmapped(boot, ram0, dirs, pools0, kind, cr3, j);
        SamePageSameWalk(boot, ram0, dirs, dir, p, cr3, PageAt(j));
        SamePageSameWalk(boot, ram3, dirs, dir, p, cr3, PageAt(j));
      }
    }
  }

  /** The frames taken for a run are exactly the ones that freeing it gives back. */
  lemma RollbackFrames(ram: Ram, pool: Pool, mem0: Pool, mem2: Pool, mem3: Pool, boot: Frame, ram0: Ram,
                       dirs: set<Frame>, cr3: Frame, b: nat, count: nat, i: nat)
    requires IsRam(ram) && IsRam(ram0) && AllocWalks(boot, ram0, ram, dirs, pool, mem0, cr3, b, count, i)
    requires AllocFrames(ram, mem0, mem2, cr3, b, i)
    requires mem3.start == mem2.start && |mem3.bits| == |mem2.bits|
    requires forall x :: mem2.Has(x) ==> (mem3.IsUsed(x) <==> mem2.IsUsed(x) && !RunHas(ram, cr3, b, i, x))
    ensures mem3 == mem0
  {
    hide Walk, IsRam, PageAt, OffRunSame, DataKept, CountFree;
    forall x | RunHas(ram, cr3, b, i, x) ensures mem0.IsFree(x) {
      var j :| b <= j < b + i && j < FRAMES && Walk(ram, cr3, PageAt(j)).Some? && Walk(ram, cr3, PageAt(j)).value == x;
      assert mem0.IsFree(Walk(ram, cr3, PageAt(j)).value);
    }
    hide RunHas;
    forall x | mem3.Has(x) ensures mem3.IsUsed(x) <==> mem0.IsUsed(x) {
      assert mem0.Has(x) && mem2.Has(x);
    }
    PoolEqual(mem3, mem0);
  }

  lemma RollbackBits(bits: Bits, k: nat, count: nat, i: nat)
    requires IsFreeRun(bits, k, count) && i <= count
    ensures Mark(Mark(Mark(bits, k, count, true), k, i, false), k + i, count - i, false) == bits
  {
  }

  lemma RunReady(m: Memory, pools0: Pools, kind: PoolType, k: nat, count: nat)
    requires IsRam(m.ram) && Inv(m.boot, m.ram, m.dirs, pools0) && m.cr3 in m.dirs && HasPools(m, kind)
    requires kind.User? ==> m.cr3 in pools0.usrAddr
    requires IsFreeRun(AddrPool(pools0, kind, m.cr3).bits, k, count) && count > 0
    requires AddrPool(m.pools, kind, m.cr3) ==
      Pool(AddrPool(pools0, kind, m.cr3).start, Mark(AddrPool(pools0, kind, m.cr3).bits, k, count, true))
    ensures var b := AddrPool(pools0, kind, m.cr3).start + k;
      && b + count <= FRAMES
      && (forall j :: b <= j < b + count ==> AddrPool(pools0, kind, m.cr3).IsFree(j))
      && forall j :: b <= j < b + count ==>
         AddrPool(m.pools, kind, m.cr3).IsUsed(j) && Walk(m.ram, m.cr3, PageAt(j)).None?
  {
    hide FramesOk, UserOk, KernelOk, SpacesOk, IsRam, Walk, PageAt;
    var pool := AddrPool(pools0, kind, m.cr3);
    var b := pool.start + k;
    forall j | b <= j < b + count
      ensures pool.IsFree(j) && j < FRAMES && AddrPool(m.pools, kind, m.cr3).IsUsed(j)
      ensures Walk(m.ram, m.cr3, PageAt(j)).None?
    {
      assert pool.IsFree(j);
      UnmarkedUnmapped(m.boot, m.ram, m.dirs, pools0, kind, m.cr3, j);
    }
    assert pool.IsFree(b + count - 1);
  }

  /** Everything but retained page tables is as it was. */
  ghost predicate Restored(boot: Frame, ram0: Ram, ram: Ram, dirs: set<Frame>, pools0: Pools, pools: Pools,
                           kind: PoolType, cr3: Frame)
    requires IsRam(ram0) && IsRam(ram) && (kind.User? ==> cr3 in pools0.usrAddr && cr3 in pools.usrAddr)
  {
    && AddrPool(pools, kind, cr3) == AddrPool(pools0, kind, cr3)
    && MemPool(pools, kind) == MemPool(pools0, kind)
    && OthersKept(pools0, pools, kind, cr3)
    && DataKept(ram0, ram, dirs)
    && forall dir, p: VPage :: dir in dirs && p.d < SELF_REF ==> Walk(ram, dir, p) == Walk(ram0, dir, p)
  }

  /** The pages of a free run have been marked, and `i` of them have frames. */
  ghost predicate PartlyMapped(boot: Frame, ram0: Ram, ram: Ram, dirs: set<Frame>, pools0: Pools, pools: Pools,
                               kind: PoolType, cr3: Frame, b: nat, count: nat, i: nat)
    requires IsRam(ram0) && IsRam(ram) && (kind.User? ==> cr3 in pools0.usrAddr && cr3 in pools.usrAddr)
  {
    var pool := AddrPool(pools0, kind, cr3);
    && pool.start <= b && IsFreeRun(pool.bits, b - pool.start, count)
    && AddrPool(pools, kind, cr3) == Pool(pool.start, Mark(pool.bits, b - pool.start, count, true))
    && OthersKept(pools0, pools, kind, cr3)
    && AllocWalks(boot, ram0, ram, dirs, AddrPool(pools, kind, cr3), MemPool(pools0, kind), cr3, b, count, i)
    && AllocFrames(ram, MemPool(pools0, kind), MemPool(pools, kind), cr3, b, i)
  }

  /** The rollback of an allocation that found frames for only `i` of its pages. */
  method UndoRun(m: Memory, kind: PoolType, b: nat, count: nat, i: nat, ghost ram0: Ram, ghost pools0: Pools)
    requires IsRam(ram0) && IsRam(m.ram) && HasPools(m, kind) && (kind.User? ==> m.cr3 in pools0.usrAddr)
    requires PartlyMapped(m.boot, ram0, m.ram, m.dirs, pools0, m.pools, kind, m.cr3, b, count, i) && 0 < i <= count
    requires Valid(m) && Inv(m.boot, ram0, m.dirs, pools0)
    modifies m`ram, m`pools
    ensures IsRam(m.ram) && HasPools(m, kind)
    ensures Valid(m)
    ensures Restored(m.boot, ram0, m.ram, m.dirs, pools0, m.pools, kind, m.cr3)
  {
    hide Walk, FramesOk, UserOk, KernelOk, SpacesOk, IsRam, PageAt, TableOf, OffRunSame, DataKept, IsTable, CountFree,
      RunHas, Mark, SameTables, PartlyMapped, MappedRun, MarksKept, Restored, MappedPage;
    ghost var ram2, pools2 := m.ram, m.pools;
    UndoReady(m.boot, ram0, m.ram, m.dirs, pools0, m.pools, kind, m.cr3, b, count, i);
    FreePages(m, kind, b, i);
    ghost var ram3, pools3 := m.ram, m.pools;
    UndoRest(m.boot, ram0, ram2, ram3, m.dirs, pools0, pools2, pools3, kind, m.cr3, b, count, i);
    if i < count {
      FreeAddr(m, kind, b + i, count - i);
    }
    UndoDone(m.boot, ram0, ram2, ram3, m.dirs, pools0, pools2, pools3, m.pools, kind, m.cr3, b, count, i);
  }

  lemma UndoReady(boot: Frame, ram0: Ram, ram: Ram, dirs: set<Frame>, pools0: Pools, pools: Pools, kind: PoolType,
                  cr3: Frame, b: nat, count: nat, i: nat)
    requires Inv(boot, ram0, dirs, pools0) && IsRam(ram)
    requires kind.User? ==> cr3 in pools0.usrAddr && cr3 in pools.usrAddr
    requires PartlyMapped(boot, ram0, ram, dirs, pools0, pools, kind, cr3, b, count, i)
    ensures b <= FRAMES && MappedRun(ram, dirs, AddrPool(pools, kind, cr3), kind, cr3, b, i)
  {
    FreshFrames(boot, dirs, pools0, ram0, kind);
    hide Walk, FramesOk, UserOk, KernelOk, SpacesOk, IsRam, PageAt, OffRunSame, DataKept, Mark, CountFree, RunHas;
    forall j | b <= j < b + i ensures MappedPage(ram, dirs, AddrPool(pools, kind, cr3), kind, cr3, j) {
      assert AddrPool(pools, kind, cr3).IsUsed(j);
    }
  }

  lemma UndoRest(boot: Frame, ram0: Ram, ram2: Ram, ram3: Ram, dirs: set<Frame>, pools0: Pools, pools2: Pools,
                 pools3: Pools, kind: PoolType, cr3: Frame, b: nat, count: nat, i: nat)
    requires IsRam(ram0) && IsRam(ram2) && Inv(boot, ram3, dirs, pools3) && cr3 in dirs && i <= count
    requires kind.User? ==> cr3 in pools0.usrAddr && cr3 in pools2.usrAddr && cr3 in pools3.usrAddr
    requires PartlyMapped(boot, ram0, ram2, dirs, pools0, pools2, kind, cr3, b, count, i)
    requires Freed(pools2, pools3, kind, cr3, b, i)
    requires OffRunSame(boot, ram2, ram3, dirs, cr3, b, i)
    ensures b + count <= FRAMES && forall j :: b + i <= j < b + count ==> Walk(ram3, cr3, PageAt(j)).None?
    ensures var pool := AddrPool(pools3, kind, cr3);
      pool.start <= b + i && (b + count - pool.start <= |pool.bits| || i == count)
  {
    hide Walk, FramesOk, UserOk, KernelOk, SpacesOk, IsRam, PageAt, DataKept, Mark, CountFree, RunHas;
    var pool := AddrPool(pools2, kind, cr3);
    assert i < count ==> pool.IsUsed(b + count - 1);
    forall j | b + i <= j < b + count ensures Walk(ram3, cr3, PageAt(j)).None? {
      assert pool.IsUsed(j);
      OffPoolRun(boot, ram3, dirs, pools3, kind, cr3, b, i, j);
    }
  }

  lemma OffPoolRun(boot: Frame, ram: Ram, dirs: set<Frame>, pools: Pools, kind: PoolType, cr3: Frame, b: nat, i: nat,
                   j: nat)
    requires Inv(boot, ram, dirs, pools) && (kind.User? ==> cr3 in pools.usrAddr)
    requires AddrPool(pools, kind, cr3).Has(j) && AddrPool(pools, kind, cr3).start <= b && b + i <= j
    ensures j < FRAMES && PageAt(j).d < SELF_REF && !OnRun(boot, cr3, PageAt(j), cr3, b, i)
  {
    PoolPages(boot, ram, dirs, pools, kind, cr3, j);
    forall l | b <= l < b + i && l < FRAMES ensures !SamePage(boot, cr3, PageAt(j), cr3, PageAt(l)) {
      SamePoolPage(boot, ram, dirs, pools, kind, cr3, j, l);
    }
  }

  lemma UndoDone(boot: Frame, ram0: Ram, ram2: Ram, ram3: Ram, dirs: set<Frame>, pools0: Pools, pools2: Pools,
                 pools3: Pools, pools4: Pools, kind: PoolType, cr3: Frame, b: nat, count: nat, i: nat)
    requires Inv(boot, ram0, dirs, pools0) && IsRam(ram2) && Inv(boot, ram3, dirs, pools3) && cr3 in dirs && i <= count
    requires kind.User? ==>
      cr3 in pools0.usrAddr && cr3 in pools2.usrAddr && cr3 in pools3.usrAddr && cr3 in pools4.usrAddr
    requires PartlyMapped(boot, ram0, ram2, dirs, pools0, pools2, kind, cr3, b, count, i)
    requires Freed(pools2, pools3, kind, cr3, b, i)
    requires forall x :: MemPool(pools2, kind).Has(x) ==>
      (MemPool(pools3, kind).IsUsed(x) <==> MemPool(pools2, kind).IsUsed(x) && !RunHas(ram2, cr3, b, i, x))
    requires forall j :: b <= j < b + i && j < FRAMES ==> Walk(ram3, cr3, PageAt(j)).None?
    requires OffRunSame(boot, ram2, ram3, dirs, cr3, b, i)
    requires SameTables(ram2, ram3, dirs) && DataKept(ram2, ram3, dirs)
    requires RestFreed(pools3, pools4, kind, cr3, b, count, i)
    ensures Restored(boot, ram0, ram3, dirs, pools0, pools4, kind, cr3)
  {
    hide Walk, FramesOk, UserOk, KernelOk, SpacesOk, IsRam, PageAt, DataKept, Mark, OffRunSame, RunHas, CountFree,
      OthersKept, IsTable, RestFreed;
    var pool := AddrPool(pools0, kind, cr3);
    assert IsRam(ram0) && IsRam(ram3) && SpacesOk(boot, ram3, dirs);
    hide Inv;
    RollbackFrames(ram2, AddrPool(pools2, kind, cr3), MemPool(pools0, kind), MemPool(pools2, kind),
                   MemPool(pools3, kind), boot, ram0, dirs, cr3, b, count, i);
    forall j | b <= j < b + i ensures pool.IsFree(j) {
      assert !pool.bits[j - pool.start];
    }
    RollbackWalks(boot, ram0, ram2, ram3, dirs, pools0, kind, cr3, b, i);
    SameTablesSameFrames(ram2, ram3, dirs);
    hide SameTables;
    DataKeptTrans(ram0, ram2, ram3, dirs);
    RollbackPools(pools0, pools2, pools3, pools4, kind, cr3, b, count, i);
    hide AllocFrames, AllocWalks, Freed;
  }

  /** The pages of a run that had no frames have been unmarked. */
  ghost predicate RestFreed(pools: Pools, pools': Pools, kind: PoolType, cr3: Frame, b: nat, count: nat, i: nat)
    requires i <= count && (kind.User? ==> cr3 in pools.usrAddr)
  {
    if i == count then pools' == pools else
    var pool := AddrPool(pools, kind, cr3);
    && b + count - pool.start <= |pool.bits| && pool.start <= b + i
    && pools' == WithAddrPool(pools, kind, cr3, Pool(pool.start, Mark(pool.bits, b + i - pool.start, count - i, false)))
  }

  lemma RollbackPools(pools0: Pools, pools2: Pools, pools3: Pools, pools4: Pools, kind: PoolType, cr3: Frame, b: nat,
                      count: nat, i: nat)
    requires kind.User? ==>
      cr3 in pools0.usrAddr && cr3 in pools2.usrAddr && cr3 in pools3.usrAddr && cr3 in pools4.usrAddr
    requires i <= count
    requires var pool := AddrPool(pools0, kind, cr3);
      && pool.start <= b && IsFreeRun(pool.bits, b - pool.start, count)
      && AddrPool(pools2, kind, cr3) == Pool(pool.start, Mark(pool.bits, b - pool.start, count, true))
    requires OthersKept(pools0, pools2, kind, cr3) && Freed(pools2, pools3, kind, cr3, b, i)
    requires RestFreed(pools3, pools4, kind, cr3, b, count, i)
    ensures AddrPool(pools4, kind, cr3) == AddrPool(pools0, kind, cr3) && MemPool(pools4, kind) == MemPool(pools3, kind)
    ensures OthersKept(pools0, pools4, kind, cr3)
  {
    hide Mark;
    var pool := AddrPool(pools0, kind, cr3);
    RollbackBits(pool.bits, b - pool.start, count, i);
    MarkEmpty(Mark(Mark(pool.bits, b - pool.start, count, true), b - pool.start, i, false), b - pool.start + i);
    OthersStay(pools0, pools2, pools3, pools4, kind, cr3, b, count, i);
    hide OthersKept;
  }

  /** Freeing a run changes no other pool. */
  lemma OthersStay(pools0: Pools, pools2: Pools, pools3: Pools, pools4: Pools, kind: PoolType, cr3: Frame, b: nat,
                   count: nat, i: nat)
    requires kind.User? ==>
      cr3 in pools0.usrAddr && cr3 in pools2.usrAddr && cr3 in pools3.usrAddr && cr3 in pools4.usrAddr
    requires i <= count && OthersKept(pools0, pools2, kind, cr3) && Freed(pools2, pools3, kind, cr3, b, i)
    requires RestFreed(pools3, pools4, kind, cr3, b, count, i)
    ensures OthersKept(pools0, pools4, kind, cr3)
  {
    hide Mark;
    assert OthersKept(pools2, pools3, kind, cr3) && OthersKept(pools3, pools4, kind, cr3);
  }

  lemma MarkEmpty(bits: Bits, k: nat)
    requires k <= |bits|
    ensures Mark(bits, k, 0, false) == bits
  {
  }

  lemma ZeroKeeps(boot: Frame, ram0: Ram, ram2: Ram, ram3: Ram, dirs: set<Frame>, pool: Pool, mem0: Pool, mem: Pool,
                  cr3: Frame, b: nat, count: nat)
    requires IsRam(ram0) && IsRam(ram2) && IsRam(ram3) && cr3 in dirs
    requires AllocWalks(boot, ram0, ram2, dirs, pool, mem0, cr3, b, count, count)
    requires AllocFrames(ram2, mem0, mem, cr3, b, count)
    requires forall dir, p: VPage :: dir in dirs && p.d < SELF_REF ==> Walk(ram3, dir, p) == Walk(ram2, dir, p)
    requires forall j :: b <= j < b + count ==> PageAt(j).d < SELF_REF
    requires SameTables(ram2, ram3, dirs)
    requires forall f: Frame :: !mem0.IsFree(f) ==> FrameAt(ram3, f) == FrameAt(ram2, f)
    ensures RunBacked(boot, ram0, ram3, dirs, pool, mem0, cr3, b, count, count)
    ensures AllocFrames(ram3, mem0, mem, cr3, b, count)
    ensures UsedDataKept(ram0, ram3, dirs, mem0)
  {
    SameTablesSameFrames(ram2, ram3, dirs);
    hide Walk, IsRam, PageAt, CountFree, IsTable, OnRun, SameTables, FrameAt;
    forall j | b <= j < b + count ensures Walk(ram3, cr3, PageAt(j)) == Walk(ram2, cr3, PageAt(j)) {
    }
    forall x ensures RunHas(ram3, cr3, b, count, x) <==> RunHas(ram2, cr3, b, count, x) {
      RunHasSame(ram2, ram3, cr3, b, count, x);
    }
  }

  // Marked pages.

  /** A process's page is on a run of pages of the pool of `kind` only when it is one of the process's own. */
  lemma UserPageOnRun(boot: Frame, ram: Ram, dirs: set<Frame>, pools: Pools, kind: PoolType, cr3: Frame,
                      b: nat, count: nat, dir: Frame, n: nat)
    requires Inv(boot, ram, dirs, pools) && (kind.User? ==> cr3 in pools.usrAddr)
    requires AddrPool(pools, kind, cr3).HasRun(b, count)
    requires dir in pools.usrAddr && pools.usrAddr[dir].Has(n)
    ensures n < FRAMES && dir in dirs && PageAt(n).d < SELF_REF
    ensures OnRun(boot, dir, PageAt(n), cr3, b, count) ==> kind.User? && dir == cr3 && b <= n < b + count
  {
    PoolPages(boot, ram, dirs, pools, User, dir, n);
    hide Inv, PageAt, SamePage, NumberOf;
    forall j | b <= j < b + count && j < FRAMES && SamePage(boot, dir, PageAt(n), cr3, PageAt(j))
      ensures kind.User? && dir == cr3 && j == n
    {
      assert AddrPool(pools, kind, cr3).Has(j);
      UserPageSame(boot, ram, dirs, pools, kind, cr3, j, dir, n);
    }
  }

  lemma UserPageSame(boot: Frame, ram: Ram, dirs: set<Frame>, pools: Pools, kind: PoolType, cr3: Frame, j: nat,
                     dir: Frame, n: nat)
    requires Inv(boot, ram, dirs, pools) && (kind.User? ==> cr3 in pools.usrAddr) && AddrPool(pools, kind, cr3).Has(j)
    requires dir in pools.usrAddr && pools.usrAddr[dir].Has(n) && n < FRAMES && j < FRAMES
    requires SamePage(boot, dir, PageAt(n), cr3, PageAt(j))
    ensures kind.User? && dir == cr3 && j == n
  {
    PoolPages(boot, ram, dirs, pools, User, dir, n);
    PoolPages(boot, ram, dirs, pools, kind, cr3, j);
    assert IsUserPage(boot, dir, PageAt(n));
    if kind.Kernel? {
      SameKernelPage(boot, dir, PageAt(n), cr3, PageAt(j));
    } else {
      SameUserPage(boot, dir, PageAt(n), cr3, PageAt(j));
    }
  }

  /** The page of a process that is none of the run's has the translation that it had. */
  lemma OffRunAt(boot: Frame, ram0: Ram, ram: Ram, dirs: set<Frame>, pools0: Pools, kind: PoolType, cr3: Frame,
                 b: nat, count: nat, dir: Frame, n: nat)
    requires Inv(boot, ram0, dirs, pools0) && IsRam(ram) && (kind.User? ==> cr3 in pools0.usrAddr)
    requires AddrPool(pools0, kind, cr3).HasRun(b, count)
    requires dir in pools0.usrAddr && pools0.usrAddr[dir].Has(n) && !(kind.User? && dir == cr3 && b <= n < b + count)
    requires OffRunSame(boot, ram0, ram, dirs, cr3, b, count)
    ensures n < FRAMES && Walk(ram, dir, PageAt(n)) == Walk(ram0, dir, PageAt(n))
  {
    hide FramesOk, UserOk, KernelOk, SpacesOk, IsRam, Walk, PageAt, OnRun;
    UserPageOnRun(boot, ram0, dirs, pools0, kind, cr3, b, count, dir, n);
  }

  /** The marks of `dir` after a change of the pages of a run: those on the run have frames, the others are old. */
  ghost predicate MarksOffRun(ram: Ram, pools0: Pools, pools: Pools, kind: PoolType, cr3: Frame,
                              b: nat, count: nat, dir: Frame)
    requires IsRam(ram) && dir in pools0.usrAddr && dir in pools.usrAddr
  {
    && pools.usrAddr[dir].start == pools0.usrAddr[dir].start
    && |pools.usrAddr[dir].bits| == |pools0.usrAddr[dir].bits|
    && forall n: nat :: pools.usrAddr[dir].IsUsed(n) ==>
         if kind.User? && dir == cr3 && b <= n < b + count then n < FRAMES && Walk(ram, cr3, PageAt(n)).Some?
         else pools0.usrAddr[dir].IsUsed(n)
  }

  lemma MarkedOffRun(boot: Frame, ram0: Ram, ram: Ram, dirs: set<Frame>, pools0: Pools, pools: Pools,
                     kind: PoolType, cr3: Frame, b: nat, count: nat, dir: Frame)
    requires IsRam(ram0) && Inv(boot, ram0, dirs, pools0) && IsRam(ram) && (kind.User? ==> cr3 in pools0.usrAddr)
    requires AddrPool(pools0, kind, cr3).HasRun(b, count)
    requires dir in pools0.usrAddr && dir in pools.usrAddr && MarkedMapped(ram0, pools0, dir)
    requires MarksOffRun(ram, pools0, pools, kind, cr3, b, count, dir)
    requires OffRunSame(boot, ram0, ram, dirs, cr3, b, count)
    ensures MarkedMapped(ram, pools, dir)
  {
    hide Inv, IsRam, Walk, PageAt, OffRunSame, MarksOffRun;
    forall n: nat | pools.usrAddr[dir].IsUsed(n) ensures n < FRAMES && Walk(ram, dir, PageAt(n)).Some? {
      MarkedOffRunAt(boot, ram0, ram, dirs, pools0, pools, kind, cr3, b, count, dir, n);
    }
  }

  lemma MarkedOffRunAt(boot: Frame, ram0: Ram, ram: Ram, dirs: set<Frame>, pools0: Pools, pools: Pools,
                       kind: PoolType, cr3: Frame, b: nat, count: nat, dir: Frame, n: nat)
    requires Inv(boot, ram0, dirs, pools0) && IsRam(ram) && (kind.User? ==> cr3 in pools0.usrAddr)
    requires AddrPool(pools0, kind, cr3).HasRun(b, count)
    requires dir in pools0.usrAddr && dir in pools.usrAddr && MarkedMapped(ram0, pools0, dir)
    requires MarksOffRun(ram, pools0, pools, kind, cr3, b, count, dir)
    requires OffRunSame(boot, ram0, ram, dirs, cr3, b, count)
    requires pools.usrAddr[dir].IsUsed(n)
    ensures n < FRAMES && Walk(ram, dir, PageAt(n)).Some?
  {
    hide FramesOk, UserOk, KernelOk, SpacesOk, IsRam, Walk, PageAt, OffRunSame;
    if !(kind.User? && dir == cr3 && b <= n < b + count) {
      assert pools0.usrAddr[dir].IsUsed(n);
      hide MarksOffRun;
      OffRunAt(boot, ram0, ram, dirs, pools0, kind, cr3, b, count, dir, n);
    }
  }

  /** Taking the pages of a run leaves every process's marked pages mapped. */
  lemma AllocMarked(boot: Frame, ram0: Ram, ram: Ram, dirs: set<Frame>, pools0: Pools, pools: Pools,
                    kind: PoolType, cr3: Frame, b: nat, count: nat, dir: Frame)
    requires Inv(boot, ram0, dirs, pools0) && IsRam(ram)
    requires kind.User? ==> cr3 in pools0.usrAddr && cr3 in pools.usrAddr
    requires dir in pools0.usrAddr && MarkedMapped(ram0, pools0, dir)
    requires var pool := AddrPool(pools0, kind, cr3);
      && pool.HasRun(b, count)
      && AddrPool(pools, kind, cr3) == Pool(pool.start, Mark(pool.bits, b - pool.start, count, true))
    requires RunBacked(boot, ram0, ram, dirs, AddrPool(pools, kind, cr3), MemPool(pools0, kind), cr3, b, count, count)
    requires OthersKept(pools0, pools, kind, cr3)
    ensures dir in pools.usrAddr && MarkedMapped(ram, pools, dir)
  {
    hide FramesOk, UserOk, KernelOk, SpacesOk, IsRam, Walk, PageAt, OffRunSame, MarkedMapped, Mark;
    MarkedOffRun(boot, ram0, ram, dirs, pools0, pools, kind, cr3, b, count, dir);
  }

  /** So does giving them back. */
  lemma FreeMarked(boot: Frame, ram0: Ram, ram: Ram, dirs: set<Frame>, pools0: Pools, pools: Pools,
                   kind: PoolType, cr3: Frame, b: nat, count: nat, dir: Frame)
    requires Inv(boot, ram0, dirs, pools0) && IsRam(ram) && (kind.User? ==> cr3 in pools0.usrAddr)
    requires dir in pools0.usrAddr && MarkedMapped(ram0, pools0, dir)
    requires Freed(pools0, pools, kind, cr3, b, count)
    requires OffRunSame(boot, ram0, ram, dirs, cr3, b, count)
    ensures dir in pools.usrAddr && MarkedMapped(ram, pools, dir)
  {
    hide FramesOk, UserOk, KernelOk, SpacesOk, IsRam, Walk, PageAt, OffRunSame, MarkedMapped, Mark;
    MarkedOffRun(boot, ram0, ram, dirs, pools0, pools, kind, cr3, b, count, dir);
  }

  lemma FreedMarks(boot: Frame, ram0: Ram, ram: Ram, dirs: set<Frame>, pools0: Pools, pools: Pools,
                   kind: PoolType, cr3: Frame, b: nat, count: nat)
    requires Inv(boot, ram0, dirs, pools0) && IsRam(ram) && (kind.User? ==> cr3 in pools0.usrAddr)
    requires Freed(pools0, pools, kind, cr3, b, count)
    requires OffRunSame(boot, ram0, ram, dirs, cr3, b, count)
    ensures MarksKept(ram0, ram, pools0, pools, {})
  {
    hide FramesOk, UserOk, KernelOk, SpacesOk, IsRam, MarkedMapped, Freed, OffRunSame;
    forall dir | dir in pools0.usrAddr && MarkedMapped(ram0, pools0, dir)
      ensures dir in pools.usrAddr && MarkedMapped(ram, pools, dir)
    {
      FreeMarked(boot, ram0, ram, dirs, pools0, pools, kind, cr3, b, count, dir);
    }
  }

  /** And a failed allocation that could be undone. */
  lemma RestoredMarked(boot: Frame, ram0: Ram, ram: Ram, dirs: set<Frame>, pools0: Pools, pools: Pools,
                       kind: PoolType, cr3: Frame, dir: Frame)
    requires Inv(boot, ram0, dirs, pools0) && IsRam(ram)
    requires kind.User? ==> cr3 in pools0.usrAddr && cr3 in pools.usrAddr
    requires dir in pools0.usrAddr && MarkedMapped(ram0, pools0, dir)
    requires Restored(boot, ram0, ram, dirs, pools0, pools, kind, cr3)
    ensures dir in pools.usrAddr && MarkedMapped(ram, pools, dir)
  {
    hide FramesOk, UserOk, KernelOk, SpacesOk, IsRam, Walk, PageAt;
    assert pools.usrAddr[dir] == pools0.usrAddr[dir];
    forall n: nat | pools.usrAddr[dir].IsUsed(n) ensures n < FRAMES && Walk(ram, dir, PageAt(n)).Some? {
      UserPageOnRun(boot, ram0, dirs, pools0, User, dir, pools0.usrAddr[dir].start, 0, dir, n);
    }
  }

  /** Pages that are marked, but for which not one frame was left, are marked and not mapped. */
  lemma LeftMarked(boot: Frame, ram: Ram, dirs: set<Frame>, pools: Pools, kind: PoolType, cr3: Frame,
                   k: nat, count: nat, dir: Frame)
    requires Inv(boot, ram, dirs, pools) && (kind.User? ==> cr3 in pools.usrAddr) && cr3 in dirs
    requires IsFreeRun(AddrPool(pools, kind, cr3).bits, k, count) && count > 0
    requires dir in pools.usrAddr && MarkedMapped(ram, pools, dir)
    ensures var pools' := RunMarked(pools, kind, cr3, k, count);
      dir in pools'.usrAddr && (MarkedMapped(ram, pools', dir) <==> !(kind.User? && dir == cr3))
  {
    hide FramesOk, UserOk, KernelOk, SpacesOk, IsRam, Walk, PageAt;
    if kind.User? && dir == cr3 {
      var n := pools.usrAddr[dir].start + k;
      assert pools.usrAddr[dir].IsFree(n);
      UnmarkedUnmapped(boot, ram, dirs, pools, kind, cr3, n);
      assert RunMarked(pools, kind, cr3, k, count).usrAddr[dir].IsUsed(n);
    }
  }

  /** The kernel has stopped while it mapped the pages of the run. */
  ghost predicate RunStopped(boot: Frame, ram0: Ram, ram: Ram, dirs: set<Frame>, pools0: Pools, pools: Pools,
                             cr3: Frame, b: nat, count: nat)
    requires IsRam(ram0) && IsRam(ram) && cr3 in pools0.usrAddr
  {
    exists i: nat :: StoppedAt(boot, ram0, ram, dirs, pools0, pools, cr3, b, count, i)
  }

  /** What is left when not even one frame was free for a run at slot `k`: its pages are marked. */
  ghost predicate OnlyMarked(ram0: Ram, ram: Ram, pools0: Pools, pools: Pools, kind: PoolType, cr3: Frame, k: nat,
                             count: nat)
    requires kind.User? ==> cr3 in pools0.usrAddr
  {
    ram == ram0 && k + count <= |AddrPool(pools0, kind, cr3).bits| && pools == RunMarked(pools0, kind, cr3, k, count)
  }

  /**
   Allocates `count` zeroed pages with consecutive addresses. When frames run out after the
   first one, everything is undone; when not even one frame is left, the pages stay marked.
   The kernel stops exactly when its frames do not suffice for the page tables.
   */
  method AllocPages(m: Memory, kind: PoolType, count: nat) returns (r: AllocResult)
    requires Valid(m) && HasPools(m, kind) && count > 0
    modifies m`ram, m`pools
    ensures IsRam(m.ram)
    ensures var pool := AddrPool(old(m.pools), kind, m.cr3);
      match FindRun(pool.bits, count)
      case None => r.NoPages? && m.ram == old(m.ram) && m.pools == old(m.pools)
      case Some(k) =>
        var free := CountFree(MemPool(old(m.pools), kind).bits);
        && (r.Halted? <==> TablesShort(old(m.ram), old(m.pools), kind, m.cr3, pool.start + k, count))
        && (r.Halted? ==>
             && kind.User? && k + count <= |pool.bits|
             && var marked := RunMarked(old(m.pools), kind, m.cr3, k, count);
               RunStopped(m.boot, old(m.ram), m.ram, m.dirs, marked, m.pools, m.cr3, pool.start + k, count))
        && (!r.Halted? ==> (r.Pages? <==> count <= free))
        && (r.Pages? ==> r.base == pool.start + k)
        && (r.NoPages? && free == 0 ==> OnlyMarked(old(m.ram), m.ram, old(m.pools), m.pools, kind, m.cr3, k, count))
    ensures !r.Halted? ==> Valid(m) && HasPools(m, kind)
    ensures r.Pages? ==>
      && Allocated(m, kind, r.base, count) && ZeroRun(m.ram, m.cr3, r.base, count)
      && RunOpen(m.ram, m.cr3, r.base, count)
      && (kind.Kernel? ==> SameTables(old(m.ram), m.ram, m.dirs))
    ensures r.NoPages? && CountFree(MemPool(old(m.pools), kind).bits) > 0 ==>
      Restored(m.boot, old(m.ram), m.ram, m.dirs, old(m.pools), m.pools, kind, m.cr3)
    ensures !r.Halted? ==>
      var lost := kind.User? && FindRun(AddrPool(old(m.pools), kind, m.cr3).bits, count).Some?
        && CountFree(MemPool(old(m.pools), kind).bits) == 0;
      MarksKept(old(m.ram), m.ram, old(m.pools), m.pools, if lost then {m.cr3} else {})
  {
    hide Walk, FramesOk, UserOk, KernelOk, SpacesOk, IsRam, PageAt, TableOf, OffRunSame, DataKept, IsTable, CountFree,
      RunHas, FindRun, SameTables, TablesShort, MarksKept, StoppedAt, Restored, MapLoop, AllocWalks, AllocFrames,
      OthersKept, RunBacked, PartlyMapped, UsedDataKept, ZeroRun, RunOpen;
    ghost var ram0, pools0 := m.ram, m.pools;
    var base := AllocAddr(m, kind, count);
    if base.None? {
      NothingLost(m.boot, ram0, m.dirs, pools0, kind, m.cr3);
      return NoPages;
    }
    var b := base.value;
    ghost var pools1, k := m.pools, b - AddrPool(pools0, kind, m.cr3).start;
    RunReady(m, pools0, kind, k, count);
    ShortAfterMarks(ram0, pools0, kind, m.cr3, k, b, count);
    var mapped, i := MapRun(m, kind, b, count);
    if mapped.NoTable? {
      return Halted;
    }
    ghost var ram2, pools2 := m.ram, m.pools;
    RunMapped(m.boot, ram0, ram2, m.dirs, pools0, pools2, kind, m.cr3, k, b, count, i);
    if mapped.NoFrame? {
      if i > 0 {
        UndoRun(m, kind, b, count, i, ram0, pools0);
        UndoneMarks(m.boot, ram0, m.ram, m.dirs, pools0, m.pools, kind, m.cr3);
      } else {
        LeftMarks(m.boot, ram0, m.dirs, pools0, kind, m.cr3, k, count);
      }
      return NoPages;
    }
    FreshFrames(m.boot, m.dirs, pools0, ram0, kind);
    RunPages(m.boot, m.ram, m.dirs, m.pools, kind, m.cr3, b, count);
    ZeroPages(m, kind, b, count, ram0, MemPool(pools0, kind));
    if kind.Kernel? {
      SameTablesTrans(ram0, ram2, m.ram, m.dirs);
    }
    ZeroKeeps(m.boot, ram0, ram2, m.ram, m.dirs, AddrPool(m.pools, kind, m.cr3), MemPool(pools0, kind),
      MemPool(m.pools, kind), m.cr3, b, count);
    TakenMarks(m.boot, ram0, m.ram, m.dirs, pools0, m.pools, kind, m.cr3, b, count);
    r := Pages(b);
  }

  /** The state of the mapping loop, seen from before the pages were marked. */
  lemma RunMapped(boot: Frame, ram0: Ram, ram: Ram, dirs: set<Frame>, pools0: Pools, pools: Pools,
                  kind: PoolType, cr3: Frame, k: nat, b: nat, count: nat, i: nat)
    requires IsRam(ram0) && IsRam(ram) && (kind.User? ==> cr3 in pools0.usrAddr && cr3 in pools.usrAddr)
    requires IsFreeRun(AddrPool(pools0, kind, cr3).bits, k, count) && b == AddrPool(pools0, kind, cr3).start + k
    requires MapLoop(boot, ram0, ram, dirs, RunMarked(pools0, kind, cr3, k, count), pools, kind, cr3, b, count, i)
    ensures PartlyMapped(boot, ram0, ram, dirs, pools0, pools, kind, cr3, b, count, i)
    ensures AllocWalks(boot, ram0, ram, dirs, AddrPool(pools, kind, cr3), MemPool(pools0, kind), cr3, b, count, i)
    ensures AllocFrames(ram, MemPool(pools0, kind), MemPool(pools, kind), cr3, b, i)
    ensures OthersKept(pools0, pools, kind, cr3)
    ensures i == 0 ==> ram == ram0 && pools == RunMarked(pools0, kind, cr3, k, count)
    ensures kind.Kernel? ==> SameTables(ram0, ram, dirs)
    ensures AddrPool(pools, kind, cr3) == AddrPool(RunMarked(pools0, kind, cr3, k, count), kind, cr3)
    ensures forall j :: b <= j < b + count ==> AddrPool(pools, kind, cr3).IsUsed(j)
  {
    hide IsRam, Walk, PageAt, AllocFrames, OffRunSame, DataKept, SameTables, TablesSpent, Mark;
  }

  lemma ShortAfterMarks(ram: Ram, pools: Pools, kind: PoolType, cr3: Frame, k: nat, b: nat, count: nat)
    requires IsRam(ram) && (kind.User? ==> cr3 in pools.usrAddr) && k + count <= |AddrPool(pools, kind, cr3).bits|
    ensures var pools' := RunMarked(pools, kind, cr3, k, count);
      && (TablesShort(ram, pools', kind, cr3, b, count) <==> TablesShort(ram, pools, kind, cr3, b, count))
      && Backed(pools', kind, count) == Backed(pools, kind, count)
  {
  }

  lemma NothingLost(boot: Frame, ram: Ram, dirs: set<Frame>, pools: Pools, kind: PoolType, cr3: Frame)
    requires Inv(boot, ram, dirs, pools) && (kind.User? ==> cr3 in pools.usrAddr)
    ensures MarksKept(ram, ram, pools, pools, {}) && Restored(boot, ram, ram, dirs, pools, pools, kind, cr3)
  {
  }

  lemma UndoneMarks(boot: Frame, ram0: Ram, ram: Ram, dirs: set<Frame>, pools0: Pools, pools: Pools, kind: PoolType,
                    cr3: Frame)
    requires Inv(boot, ram0, dirs, pools0) && IsRam(ram)
    requires kind.User? ==> cr3 in pools0.usrAddr && cr3 in pools.usrAddr
    requires Restored(boot, ram0, ram, dirs, pools0, pools, kind, cr3)
    ensures MarksKept(ram0, ram, pools0, pools, {})
  {
    hide FramesOk, UserOk, KernelOk, SpacesOk, IsRam, MarkedMapped, Restored;
    forall dir | dir in pools0.usrAddr && MarkedMapped(ram0, pools0, dir)
      ensures dir in pools.usrAddr && MarkedMapped(ram, pools, dir)
    {
      RestoredMarked(boot, ram0, ram, dirs, pools0, pools, kind, cr3, dir);
    }
  }

  lemma LeftMarks(boot: Frame, ram: Ram, dirs: set<Frame>, pools: Pools, kind: PoolType, cr3: Frame, k: nat, count: nat)
    requires Inv(boot, ram, dirs, pools) && (kind.User? ==> cr3 in pools.usrAddr) && cr3 in dirs
    requires IsFreeRun(AddrPool(pools, kind, cr3).bits, k, count) && count > 0
    ensures MarksKept(ram, ram, pools, RunMarked(pools, kind, cr3, k, count), if kind.User? then {cr3} else {})
  {
    hide FramesOk, UserOk, KernelOk, SpacesOk, IsRam, MarkedMapped, RunMarked;
    forall dir | dir in pools.usrAddr && MarkedMapped(ram, pools, dir)
      ensures var pools' := RunMarked(pools, kind, cr3, k, count);
        dir in pools'.usrAddr && (MarkedMapped(ram, pools', dir) <==> !(kind.User? && dir == cr3))
    {
      LeftMarked(boot, ram, dirs, pools, kind, cr3, k, count, dir);
    }
  }

  lemma TakenMarks(boot: Frame, ram0: Ram, ram: Ram, dirs: set<Frame>, pools0: Pools, pools: Pools,
                   kind: PoolType, cr3: Frame, b: nat, count: nat)
    requires Inv(boot, ram0, dirs, pools0) && IsRam(ram)
    requires kind.User? ==> cr3 in pools0.usrAddr && cr3 in pools.usrAddr
    requires var pool := AddrPool(pools0, kind, cr3);
      && pool.HasRun(b, count)
      && AddrPool(pools, kind, cr3) == Pool(pool.start, Mark(pool.bits, b - pool.start, count, true))
    requires RunBacked(boot, ram0, ram, dirs, AddrPool(pools, kind, cr3), MemPool(pools0, kind), cr3, b, count, count)
    requires OthersKept(pools0, pools, kind, cr3)
    ensures MarksKept(ram0, ram, pools0, pools, {})
  {
    hide FramesOk, UserOk, KernelOk, SpacesOk, IsRam, MarkedMapped, RunBacked, OthersKept, Mark;
    forall dir | dir in pools0.usrAddr && MarkedMapped(ram0, pools0, dir)
      ensures dir in pools.usrAddr && MarkedMapped(ram, pools, dir)
    {
      AllocMarked(boot, ram0, ram, dirs, pools0, pools, kind, cr3, b, count, dir);
    }
  }

  lemma FreshFrames(boot: Frame, dirs: set<Frame>, pools0: Pools, ram0: Ram, kind: PoolType)
    requires Inv(boot, ram0, dirs, pools0)
    ensures forall x: nat :: MemPool(pools0, kind).IsFree(x) ==> x !in dirs
  {
  }
}
