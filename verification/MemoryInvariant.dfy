/**
 What every run of mapping, unmapping, page allocation and process creation keeps: which
 frames are tables, which pages are marked, and that no two pages share a frame.
 */
module MemoryInvariant {
  import opened Wrappers
  import opened Words
  import opened BitRuns
  import opened PageTables
  import opened AddressSpaces
  import opened MemoryUnit

  /** A page of the user half, leaving out the boot directory's alias of the kernel's first table. */
  predicate IsUserPage(boot: Frame, dir: Frame, p: VPage) {
    p.d < KRNL_START && !(dir == boot && p.d == 0)
  }

  /** Directories and tables occupy allocated frames below the user frames. */
  ghost predicate FramesOk(ram: Ram, dirs: set<Frame>, pools: Pools)
    requires IsRam(ram)
  {
    && pools.krnlMem.start + |pools.krnlMem.bits| <= pools.usrMem.start
    && pools.usrMem.start + |pools.usrMem.bits| <= FRAMES
    && (forall dir :: dir in dirs ==> !pools.krnlMem.IsFree(dir) && dir < pools.usrMem.start)
    && (forall f: nat :: IsTable(ram, dirs, f) ==> !pools.krnlMem.IsFree(f) && f < pools.usrMem.start)
  }

  /** Every mapped user page is marked in its process's pool and has an allocated user frame to itself. */
  ghost predicate UserOk(boot: Frame, ram: Ram, dirs: set<Frame>, pools: Pools)
    requires IsRam(ram)
  {
    && boot !in pools.usrAddr
    && (forall dir :: dir in pools.usrAddr ==>
         dir in dirs && ENTRIES <= pools.usrAddr[dir].start
         && pools.usrAddr[dir].start + |pools.usrAddr[dir].bits| <= KRNL_START * ENTRIES)
    && (forall dir, p: VPage :: dir in dirs && IsUserPage(boot, dir, p) && Walk(ram, dir, p).Some? ==>
         dir in pools.usrAddr && pools.usrAddr[dir].IsUsed(NumberOf(p)) && pools.usrMem.IsUsed(Walk(ram, dir, p).value))
    && (forall dir, p: VPage, dir', p': VPage ::
         dir in dirs && dir' in dirs && IsUserPage(boot, dir, p) && IsUserPage(boot, dir', p')
         && Walk(ram, dir, p).Some? && Walk(ram, dir, p) == Walk(ram, dir', p')
         ==> dir == dir' && p == p')
  }

  /** Every mapped page of the kernel's pool is marked and has an allocated kernel frame, not a table, to itself. */
  ghost predicate KernelOk(boot: Frame, ram: Ram, dirs: set<Frame>, pools: Pools)
    requires IsRam(ram)
  {
    && KRNL_START * ENTRIES <= pools.krnlAddr.start
    && pools.krnlAddr.start + |pools.krnlAddr.bits| <= SELF_REF * ENTRIES
    && (forall p: VPage :: pools.krnlAddr.Has(NumberOf(p)) && Walk(ram, boot, p).Some? ==>
         pools.krnlAddr.IsUsed(NumberOf(p)) && pools.krnlMem.IsUsed(Walk(ram, boot, p).value)
         && !IsTable(ram, dirs, Walk(ram, boot, p).value))
    && (forall p: VPage, p': VPage ::
         pools.krnlAddr.Has(NumberOf(p)) && pools.krnlAddr.Has(NumberOf(p'))
         && Walk(ram, boot, p).Some? && Walk(ram, boot, p) == Walk(ram, boot, p')
         ==> p == p')
  }

  ghost predicate Inv(boot: Frame, ram: Ram, dirs: set<Frame>, pools: Pools) {
    && IsRam(ram) && SpacesOk(boot, ram, dirs)
    && FramesOk(ram, dirs, pools)
    && UserOk(boot, ram, dirs, pools)
    && KernelOk(boot, ram, dirs, pools)
  }

  function AddrPool(pools: Pools, kind: PoolType, cr3: Frame): Pool
    requires kind.User? ==> cr3 in pools.usrAddr
  {
    if kind.Kernel? then pools.krnlAddr else pools.usrAddr[cr3]
  }

  function MemPool(pools: Pools, kind: PoolType): Pool {
    if kind.Kernel? then pools.krnlMem else pools.usrMem
  }

  function WithAddrPool(pools: Pools, kind: PoolType, cr3: Frame, pool: Pool): Pools {
    if kind.Kernel? then pools.(krnlAddr := pool) else pools.(usrAddr := pools.usrAddr[cr3 := pool])
  }

  function WithMemPool(pools: Pools, kind: PoolType, pool: Pool): Pools {
    if kind.Kernel? then pools.(krnlMem := pool) else pools.(usrMem := pool)
  }

  /** The frames of the walk results agree where nothing was remapped. */
  ghost predicate WalksChangedAt(boot: Frame, ram: Ram, ram': Ram, dirs: set<Frame>, cr3: Frame, q: VPage,
                                 r: Option<Frame>)
    requires IsRam(ram) && IsRam(ram')
  {
    forall dir, p: VPage :: dir in dirs && p.d < SELF_REF ==>
      Walk(ram', dir, p) == if SamePage(boot, dir, p, cr3, q) then r else Walk(ram, dir, p)
  }

  ghost predicate SameTables(ram: Ram, ram': Ram, dirs: set<Frame>)
    requires IsRam(ram) && IsRam(ram')
  {
    forall dir, d :: dir in dirs && 0 <= d < SELF_REF ==> TableOf(ram', dir, d) == TableOf(ram, dir, d)
  }

  lemma SameTablesSameFrames(ram: Ram, ram': Ram, dirs: set<Frame>)
    requires IsRam(ram) && IsRam(ram') && SameTables(ram, ram', dirs)
    ensures forall f: nat :: IsTable(ram', dirs, f) <==> IsTable(ram, dirs, f)
  {
    hide TableOf;
    forall f: nat ensures IsTable(ram', dirs, f) <==> IsTable(ram, dirs, f) {
      if IsTable(ram, dirs, f) {
        var dir, d :| dir in dirs && 0 <= d < SELF_REF && TableOf(ram, dir, d) == Some(f);
        assert TableOf(ram', dir, d) == Some(f);
      }
      if IsTable(ram', dirs, f) {
        var dir, d :| dir in dirs && 0 <= d < SELF_REF && TableOf(ram', dir, d) == Some(f);
        assert TableOf(ram, dir, d) == Some(f);
      }
    }
  }

  lemma NumberInjective(p: VPage, q: VPage)
    ensures NumberOf(p) == NumberOf(q) ==> p == q
    ensures NumberOf(p) / ENTRIES == p.d
  {
  }

  /** A user page is the same page only as itself. */
  lemma SameUserPage(boot: Frame, dir: Frame, p: VPage, cr3: Frame, q: VPage)
    requires IsUserPage(boot, cr3, q)
    ensures SamePage(boot, dir, p, cr3, q) <==> dir == cr3 && p == q
  {
  }

  /** A kernel page is the same page in every space, besides its alias in the boot directory. */
  lemma SameKernelPage(boot: Frame, dir: Frame, p: VPage, cr3: Frame, q: VPage)
    requires q.d >= KRNL_START
    ensures IsUserPage(boot, dir, p) ==> !SamePage(boot, dir, p, cr3, q)
    ensures p.d >= KRNL_START ==> (SamePage(boot, dir, p, cr3, q) <==> p == q)
  {
  }

  lemma BootIn(boot: Frame, ram: Ram, dirs: set<Frame>)
    requires IsRam(ram) && SpacesOk(boot, ram, dirs)
    ensures boot in dirs
  {
  }

  lemma KernelPagesBelowSelf(pools: Pools)
    requires KRNL_START * ENTRIES <= pools.krnlAddr.start
    requires pools.krnlAddr.start + |pools.krnlAddr.bits| <= SELF_REF * ENTRIES
    ensures forall p: VPage :: pools.krnlAddr.Has(NumberOf(p)) ==> KRNL_START <= p.d < SELF_REF
  {
  }

  // The three parts of the invariant under each kind of change.

  /** `Walk` on the user pages is as before, but for page `q` of `cr3`. */
  ghost predicate UserWalks(boot: Frame, ram: Ram, ram': Ram, dirs: set<Frame>, cr3: Frame, q: VPage, r: Option<Frame>)
    requires IsRam(ram) && IsRam(ram')
  {
    forall dir, p: VPage :: dir in dirs && IsUserPage(boot, dir, p) ==>
      Walk(ram', dir, p) == if dir == cr3 && p == q then r else Walk(ram, dir, p)
  }

  ghost predicate UserWalksSame(boot: Frame, ram: Ram, ram': Ram, dirs: set<Frame>)
    requires IsRam(ram) && IsRam(ram')
  {
    forall dir, p: VPage :: dir in dirs && IsUserPage(boot, dir, p) ==> Walk(ram', dir, p) == Walk(ram, dir, p)
  }

  lemma UserMapped(boot: Frame, ram: Ram, ram': Ram, dirs: set<Frame>, pools: Pools, cr3: Frame, q: VPage, f: Frame)
    requires IsRam(ram) && IsRam(ram') && UserOk(boot, ram, dirs, pools)
    requires UserWalks(boot, ram, ram', dirs, cr3, q, Some(f))
    requires cr3 in pools.usrAddr && pools.usrAddr[cr3].IsUsed(NumberOf(q)) && pools.usrMem.IsFree(f)
    ensures UserOk(boot, ram', dirs, pools.(usrMem := pools.usrMem.With(f, true)))
  {
    hide Walk, IsRam, NumberOf, IsUserPage;
  }

  lemma UserUnmapped(boot: Frame, ram: Ram, ram': Ram, dirs: set<Frame>, pools: Pools, cr3: Frame, q: VPage, f: Frame)
    requires IsRam(ram) && IsRam(ram') && UserOk(boot, ram, dirs, pools)
    requires UserWalks(boot, ram, ram', dirs, cr3, q, None)
    requires cr3 in dirs && IsUserPage(boot, cr3, q) && Walk(ram, cr3, q) == Some(f)
    ensures pools.usrMem.IsUsed(f)
    ensures UserOk(boot, ram', dirs, pools.(usrMem := pools.usrMem.With(f, false)))
  {
    hide Walk, IsRam, NumberOf, IsUserPage;
  }

  lemma UserSame(boot: Frame, ram: Ram, ram': Ram, dirs: set<Frame>, pools: Pools, pools': Pools)
    requires IsRam(ram) && IsRam(ram') && UserOk(boot, ram, dirs, pools) && UserWalksSame(boot, ram, ram', dirs)
    requires pools'.usrAddr == pools.usrAddr && pools'.usrMem == pools.usrMem
    ensures UserOk(boot, ram', dirs, pools')
  {
    hide Walk, IsRam, NumberOf, IsUserPage;
  }

  /** `Walk` on the kernel's pool is as before, but for page `q`. */
  ghost predicate KernelWalks(boot: Frame, ram: Ram, ram': Ram, pools: Pools, q: VPage, r: Option<Frame>)
    requires IsRam(ram) && IsRam(ram')
  {
    forall p: VPage :: pools.krnlAddr.Has(NumberOf(p)) ==>
      Walk(ram', boot, p) == if p == q then r else Walk(ram, boot, p)
  }

  ghost predicate KernelWalksSame(boot: Frame, ram: Ram, ram': Ram, pools: Pools)
    requires IsRam(ram) && IsRam(ram')
  {
    forall p: VPage :: pools.krnlAddr.Has(NumberOf(p)) ==> Walk(ram', boot, p) == Walk(ram, boot, p)
  }

  lemma KernelMapped(boot: Frame, ram: Ram, ram': Ram, dirs: set<Frame>, pools: Pools, q: VPage, f: Frame)
    requires IsRam(ram) && IsRam(ram') && KernelOk(boot, ram, dirs, pools)
    requires KernelWalks(boot, ram, ram', pools, q, Some(f))
    requires pools.krnlAddr.IsUsed(NumberOf(q)) && pools.krnlMem.IsFree(f) && !IsTable(ram, dirs, f)
    requires forall g: nat :: IsTable(ram', dirs, g) <==> IsTable(ram, dirs, g)
    ensures KernelOk(boot, ram', dirs, pools.(krnlMem := pools.krnlMem.With(f, true)))
  {
    hide Walk, IsRam, NumberOf, IsTable;
  }

  lemma KernelUnmapped(boot: Frame, ram: Ram, ram': Ram, dirs: set<Frame>, pools: Pools, q: VPage, f: Frame)
    requires IsRam(ram) && IsRam(ram') && KernelOk(boot, ram, dirs, pools)
    requires KernelWalks(boot, ram, ram', pools, q, None)
    requires pools.krnlAddr.Has(NumberOf(q)) && Walk(ram, boot, q) == Some(f)
    requires forall g: nat :: IsTable(ram', dirs, g) <==> IsTable(ram, dirs, g)
    ensures pools.krnlMem.IsUsed(f) && !IsTable(ram, dirs, f)
    ensures KernelOk(boot, ram', dirs, pools.(krnlMem := pools.krnlMem.With(f, false)))
  {
    hide Walk, IsRam, NumberOf, IsTable;
  }

  /** Tables that were free frames of the kernel pool are not frames of its pages. */
  lemma KernelSame(boot: Frame, ram: Ram, ram': Ram, dirs: set<Frame>, dirs': set<Frame>, pools: Pools, pools': Pools)
    requires IsRam(ram) && IsRam(ram') && KernelOk(boot, ram, dirs, pools) && KernelWalksSame(boot, ram, ram', pools)
    requires pools'.krnlAddr == pools.krnlAddr
    requires forall f :: pools.krnlMem.IsUsed(f) ==> pools'.krnlMem.IsUsed(f)
    requires forall f: nat :: IsTable(ram', dirs', f) ==> IsTable(ram, dirs, f) || pools.krnlMem.IsFree(f)
    ensures KernelOk(boot, ram', dirs', pools')
  {
    hide Walk, IsRam, NumberOf, IsTable;
  }

  lemma FramesSame(ram: Ram, ram': Ram, dirs: set<Frame>, pools: Pools, pools': Pools)
    requires IsRam(ram) && IsRam(ram') && FramesOk(ram, dirs, pools)
    requires forall f: nat :: IsTable(ram', dirs, f) <==> IsTable(ram, dirs, f)
    requires pools'.krnlMem.start == pools.krnlMem.start && |pools'.krnlMem.bits| == |pools.krnlMem.bits|
    requires pools'.usrMem.start == pools.usrMem.start && |pools'.usrMem.bits| == |pools.usrMem.bits|
    requires forall f: nat :: pools'.krnlMem.IsFree(f) ==>
      pools.krnlMem.IsFree(f) || (f !in dirs && !IsTable(ram, dirs, f))
    ensures FramesOk(ram', dirs, pools')
  {
    hide IsRam, IsTable;
  }

  // The operations.

  /** Mapping a marked page of the user half to a free user frame keeps the invariant. */
  lemma MapUserKeepsInv(boot: Frame, ram: Ram, ram': Ram, dirs: set<Frame>, pools: Pools, cr3: Frame, q: VPage,
                        f: Frame)
    requires Inv(boot, ram, dirs, pools) && cr3 in pools.usrAddr
    requires IsRam(ram') && SpacesOk(boot, ram', dirs) && SameTables(ram, ram', dirs)
    requires WalksChangedAt(boot, ram, ram', dirs, cr3, q, Some(f))
    requires pools.usrAddr[cr3].IsUsed(NumberOf(q)) && pools.usrMem.IsFree(f) && q.d < KRNL_START
    ensures Inv(boot, ram', dirs, pools.(usrMem := pools.usrMem.With(f, true)))
  {
    UserChange(boot, ram, ram', dirs, pools, cr3, q, Some(f));
    hide UserOk, KernelOk, FramesOk, SpacesOk, IsRam;
    UserMapped(boot, ram, ram', dirs, pools, cr3, q, f);
    var pools' := pools.(usrMem := pools.usrMem.With(f, true));
    KernelSame(boot, ram, ram', dirs, dirs, pools, pools');
    FramesSame(ram, ram', dirs, pools, pools');
  }

  /** Unmapping a user page and freeing its frame keeps the invariant. */
  lemma UnmapUserKeepsInv(boot: Frame, ram: Ram, ram': Ram, dirs: set<Frame>, pools: Pools, cr3: Frame, q: VPage,
                          f: Frame)
    requires Inv(boot, ram, dirs, pools) && cr3 in pools.usrAddr
    requires IsRam(ram') && SpacesOk(boot, ram', dirs) && SameTables(ram, ram', dirs)
    requires WalksChangedAt(boot, ram, ram', dirs, cr3, q, None)
    requires pools.usrAddr[cr3].IsUsed(NumberOf(q)) && Walk(ram, cr3, q) == Some(f) && q.d < KRNL_START
    ensures pools.usrMem.IsUsed(f)
    ensures Inv(boot, ram', dirs, pools.(usrMem := pools.usrMem.With(f, false)))
  {
    UserChange(boot, ram, ram', dirs, pools, cr3, q, None);
    hide UserOk, KernelOk, FramesOk, SpacesOk, IsRam, Walk;
    UserUnmapped(boot, ram, ram', dirs, pools, cr3, q, f);
    var pools' := pools.(usrMem := pools.usrMem.With(f, false));
    KernelSame(boot, ram, ram', dirs, dirs, pools, pools');
    FramesSame(ram, ram', dirs, pools, pools');
  }

  /** How a change of one user page shows. */
  lemma UserChange(boot: Frame, ram: Ram, ram': Ram, dirs: set<Frame>, pools: Pools, cr3: Frame, q: VPage,
                   r: Option<Frame>)
    requires Inv(boot, ram, dirs, pools) && cr3 in pools.usrAddr
    requires IsRam(ram') && SameTables(ram, ram', dirs) && WalksChangedAt(boot, ram, ram', dirs, cr3, q, r)
    requires pools.usrAddr[cr3].IsUsed(NumberOf(q)) && q.d < KRNL_START
    ensures cr3 in dirs && IsUserPage(boot, cr3, q)
    ensures UserWalks(boot, ram, ram', dirs, cr3, q, r) && KernelWalksSame(boot, ram, ram', pools)
    ensures forall f: nat :: IsTable(ram', dirs, f) <==> IsTable(ram, dirs, f)
  {
    SameTablesSameFrames(ram, ram', dirs);
    NumberInjective(q, q);
    KernelPagesBelowSelf(pools);
    BootIn(boot, ram, dirs);
    assert q.d >= 1;
    hide Walk, SpacesOk, IsTable, IsRam, NumberOf, SamePage, FramesOk, KernelOk;
    forall dir, p: VPage | dir in dirs && p.d < SELF_REF
      ensures Walk(ram', dir, p) == if dir == cr3 && p == q then r else Walk(ram, dir, p)
    {
      SameUserPage(boot, dir, p, cr3, q);
    }
  }

  /** How a change of one page of the kernel's pool shows. */
  lemma KernelChange(boot: Frame, ram: Ram, ram': Ram, dirs: set<Frame>, pools: Pools, cr3: Frame, q: VPage,
                     r: Option<Frame>)
    requires Inv(boot, ram, dirs, pools)
    requires IsRam(ram') && SameTables(ram, ram', dirs) && WalksChangedAt(boot, ram, ram', dirs, cr3, q, r)
    requires pools.krnlAddr.Has(NumberOf(q))
    ensures UserWalksSame(boot, ram, ram', dirs) && KernelWalks(boot, ram, ram', pools, q, r)
    ensures forall f: nat :: IsTable(ram', dirs, f) <==> IsTable(ram, dirs, f)
  {
    SameTablesSameFrames(ram, ram', dirs);
    KernelPagesBelowSelf(pools);
    BootIn(boot, ram, dirs);
    hide Walk, SpacesOk, TableOf, IsTable, IsRam, NumberOf, SamePage, FramesOk, UserOk, KernelOk;
    forall dir, p: VPage | dir in dirs && IsUserPage(boot, dir, p)
      ensures Walk(ram', dir, p) == Walk(ram, dir, p)
    {
      SameKernelPage(boot, dir, p, cr3, q);
    }
    forall p: VPage | pools.krnlAddr.Has(NumberOf(p))
      ensures Walk(ram', boot, p) == if p == q then r else Walk(ram, boot, p)
    {
      SameKernelPage(boot, boot, p, cr3, q);
    }
  }

  /** Mapping a marked page of the kernel's pool to a free kernel frame keeps the invariant. */
  lemma MapKernelKeepsInv(boot: Frame, ram: Ram, ram': Ram, dirs: set<Frame>, pools: Pools, cr3: Frame, q: VPage,
                          f: Frame)
    requires Inv(boot, ram, dirs, pools)
    requires IsRam(ram') && SpacesOk(boot, ram', dirs) && SameTables(ram, ram', dirs)
    requires WalksChangedAt(boot, ram, ram', dirs, cr3, q, Some(f))
    requires pools.krnlAddr.IsUsed(NumberOf(q)) && pools.krnlMem.IsFree(f)
    ensures Inv(boot, ram', dirs, pools.(krnlMem := pools.krnlMem.With(f, true)))
  {
    KernelChange(boot, ram, ram', dirs, pools, cr3, q, Some(f));
    assert !IsTable(ram, dirs, f);
    hide UserOk, KernelOk, FramesOk, SpacesOk, IsRam, IsTable;
    KernelMapped(boot, ram, ram', dirs, pools, q, f);
    var pools' := pools.(krnlMem := pools.krnlMem.With(f, true));
    UserSame(boot, ram, ram', dirs, pools, pools');
    FramesSame(ram, ram', dirs, pools, pools');
  }

  /** Unmapping a page of the kernel's pool and freeing its frame, which is no directory, keeps the invariant. */
  lemma UnmapKernelKeepsInv(boot: Frame, ram: Ram, ram': Ram, dirs: set<Frame>, pools: Pools, cr3: Frame, q: VPage,
                            f: Frame)
    requires Inv(boot, ram, dirs, pools)
    requires IsRam(ram') && SpacesOk(boot, ram', dirs) && SameTables(ram, ram', dirs)
    requires WalksChangedAt(boot, ram, ram', dirs, cr3, q, None)
    requires pools.krnlAddr.IsUsed(NumberOf(q)) && Walk(ram, boot, q) == Some(f) && f !in dirs
    ensures pools.krnlMem.IsUsed(f)
    ensures Inv(boot, ram', dirs, pools.(krnlMem := pools.krnlMem.With(f, false)))
  {
    KernelChange(boot, ram, ram', dirs, pools, cr3, q, None);
    hide UserOk, KernelOk, FramesOk, SpacesOk, IsRam, IsTable, Walk;
    KernelUnmapped(boot, ram, ram', dirs, pools, q, f);
    var pools' := pools.(krnlMem := pools.krnlMem.With(f, false));
    UserSame(boot, ram, ram', dirs, pools, pools');
    FramesSame(ram, ram', dirs, pools, pools');
  }

  lemma NewTableFrames(boot: Frame, ram: Ram, dirs: set<Frame>, cr3: Frame, d: nat, tab: Frame)
    requires IsRam(ram) && SpacesOk(boot, ram, dirs) && cr3 in dirs && d < SELF_REF
    requires TableOf(ram, cr3, d).None? && tab !in dirs && !IsTable(ram, dirs, tab)
    ensures forall f: nat :: IsTable(WithTable(ram, cr3, d, tab), dirs, f) <==> IsTable(ram, dirs, f) || f == tab
  {
    NewTableKeepsWalks(boot, ram, dirs, cr3, d, tab);
    var ram' := WithTable(ram, cr3, d, tab);
    hide Walk, SpacesOk, WithTable, TableOf, IsRam;
    forall f: nat ensures IsTable(ram', dirs, f) <==> IsTable(ram, dirs, f) || f == tab {
      if IsTable(ram, dirs, f) {
        var dir, i :| dir in dirs && 0 <= i < SELF_REF && TableOf(ram, dir, i) == Some(f);
        assert TableOf(ram', dir, i) == Some(f);
      }
      if f == tab {
        assert TableOf(ram', cr3, d) == Some(tab);
      } else if IsTable(ram', dirs, f) {
        var dir, i :| dir in dirs && 0 <= i < SELF_REF && TableOf(ram', dir, i) == Some(f);
        assert TableOf(ram, dir, i) == Some(f);
      }
    }
  }

  /** A new table for a user slot keeps the invariant. */
  lemma NewTableKeepsInv(boot: Frame, ram: Ram, dirs: set<Frame>, pools: Pools, cr3: Frame, d: nat, tab: Frame)
    requires Inv(boot, ram, dirs, pools) && cr3 in dirs && d < SELF_REF
    requires TableOf(ram, cr3, d).None? && pools.krnlMem.IsFree(tab)
    ensures tab != cr3 && Inv(boot, WithTable(ram, cr3, d, tab), dirs, pools.(krnlMem := pools.krnlMem.With(tab, true)))
  {
    NewTableKeepsWalks(boot, ram, dirs, cr3, d, tab);
    NewTableFrames(boot, ram, dirs, cr3, d, tab);
    var ram' := WithTable(ram, cr3, d, tab);
    var pools' := pools.(krnlMem := pools.krnlMem.With(tab, true));
    KernelPagesBelowSelf(pools);
    BootIn(boot, ram, dirs);
    assert FramesOk(ram', dirs, pools') by {
      hide UserOk, KernelOk, SpacesOk, WithTable, TableOf, Walk, IsTable, IsRam;
    }
    hide Walk, SpacesOk, WithTable, TableOf, IsTable, IsRam, NumberOf, UserOk, KernelOk, FramesOk;
    UserSame(boot, ram, ram', dirs, pools, pools');
    KernelSame(boot, ram, ram', dirs, dirs, pools, pools');
  }

  /** Marking pages, or unmarking pages that are not mapped, keeps the invariant. */
  lemma AddrPoolKeepsInv(boot: Frame, ram: Ram, dirs: set<Frame>, pools: Pools, kind: PoolType, cr3: Frame, pool': Pool)
    requires Inv(boot, ram, dirs, pools) && cr3 in dirs && (kind.User? ==> cr3 in pools.usrAddr)
    requires var pool := AddrPool(pools, kind, cr3);
      && pool'.start == pool.start && |pool'.bits| == |pool.bits|
      && forall p: VPage :: pool.IsUsed(NumberOf(p)) && Walk(ram, cr3, p).Some? ==> pool'.IsUsed(NumberOf(p))
    ensures Inv(boot, ram, dirs, WithAddrPool(pools, kind, cr3, pool'))
  {
    hide FramesOk, UserOk, KernelOk, SpacesOk, IsRam, Walk, NumberOf;
    if kind.Kernel? {
      KernelPoolKeeps(boot, ram, dirs, pools, cr3, pool');
    } else {
      UserPoolKeeps(boot, ram, dirs, pools, cr3, pool');
    }
  }

  lemma KernelPoolKeeps(boot: Frame, ram: Ram, dirs: set<Frame>, pools: Pools, cr3: Frame, pool': Pool)
    requires Inv(boot, ram, dirs, pools) && cr3 in dirs
    requires pool'.start == pools.krnlAddr.start && |pool'.bits| == |pools.krnlAddr.bits|
    requires forall p: VPage ::
      pools.krnlAddr.IsUsed(NumberOf(p)) && Walk(ram, cr3, p).Some? ==> pool'.IsUsed(NumberOf(p))
    ensures Inv(boot, ram, dirs, pools.(krnlAddr := pool'))
  {
    KernelPagesBelowSelf(pools);
    BootIn(boot, ram, dirs);
    forall p: VPage | KRNL_START <= p.d < SELF_REF ensures Walk(ram, cr3, p) == Walk(ram, boot, p) {
      KernelPagesShared(boot, ram, dirs, cr3, boot, p);
    }
    var pools' := pools.(krnlAddr := pool');
    assert UserOk(boot, ram, dirs, pools') by {
      hide Walk, IsRam, NumberOf;
    }
    hide Walk, SpacesOk, TableOf, IsTable, IsRam, NumberOf, UserOk;
  }

  lemma UserPoolKeeps(boot: Frame, ram: Ram, dirs: set<Frame>, pools: Pools, cr3: Frame, pool': Pool)
    requires Inv(boot, ram, dirs, pools) && cr3 in pools.usrAddr
    requires pool'.start == pools.usrAddr[cr3].start && |pool'.bits| == |pools.usrAddr[cr3].bits|
    requires forall p: VPage ::
      pools.usrAddr[cr3].IsUsed(NumberOf(p)) && Walk(ram, cr3, p).Some? ==> pool'.IsUsed(NumberOf(p))
    ensures Inv(boot, ram, dirs, pools.(usrAddr := pools.usrAddr[cr3 := pool']))
  {
    hide Walk, SpacesOk, IsRam, NumberOf;
    var pools' := pools.(usrAddr := pools.usrAddr[cr3 := pool']);
    assert KernelOk(boot, ram, dirs, pools') && FramesOk(ram, dirs, pools') by {
      hide UserOk;
    }
    hide KernelOk, FramesOk;
  }
}
