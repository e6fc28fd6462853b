/** Creating processes: a new page directory, and the copy of a process's memory by `Fork`. */
module Processes {
  import opened Wrappers
  import opened Words
  import opened BitRuns
  import opened PageTables
  import opened AddressSpaces
  import opened MemoryUnit
  import opened MemoryInvariant
  import opened PageAccess
  import opened PageAllocation

  /** The first page of user space, and the number of pages that a process's address pool manages. */
  const IMAGE_PAGE := 0x8048
  const USER_PAGES := 753592
  /** The pages that hold the bitmap of such a pool. */
  const BITMAP_PAGES := 23

  lemma UserPoolSize()
    ensures USER_PAGES == (0xC000_0000 - 0x804_8000) / PAGE_SIZE / 8 * 8
    ensures BITMAP_PAGES * PAGE_SIZE >= USER_PAGES / 8 > (BITMAP_PAGES - 1) * PAGE_SIZE
    ensures IMAGE_PAGE * PAGE_SIZE == 0x804_8000 && IMAGE_PAGE + USER_PAGES <= KRNL_START * ENTRIES
  {
  }

  /** The address pool of a process that has no pages yet. */
  function EmptyUserPool(): (r: Pool)
    ensures r.start == IMAGE_PAGE && |r.bits| == USER_PAGES
    ensures forall k :: 0 <= k < USER_PAGES ==> !r.bits[k]
  {
    Pool(IMAGE_PAGE, seq(USER_PAGES, _ => false))
  }

  /** A page directory with an empty user half, the kernel half of `from`, and a reference to itself. */
  function NewDirectory(from: seq<Word>, dir: Frame): (r: seq<Word>)
    requires |from| == ENTRIES
    ensures |r| == ENTRIES
    ensures forall d :: 0 <= d < KRNL_START ==> r[d] == 0
    ensures forall d :: KRNL_START <= d < SELF_REF ==> r[d] == from[d]
    ensures r[SELF_REF] == Mapping(0, dir)
  {
    ZeroPage()[..KRNL_START] + from[KRNL_START..SELF_REF] + [Mapping(0, dir)]
  }

  /** Every user translation, and the content of every user page, is as before. */
  ghost predicate UserSideKept(boot: Frame, ram: Ram, ram': Ram, dirs: set<Frame>)
    requires IsRam(ram) && IsRam(ram')
  {
    forall dir, p: VPage :: dir in dirs && IsUserPage(boot, dir, p) ==> PageKept(ram, ram', dir, p)
  }

  ghost predicate PageKept(ram: Ram, ram': Ram, dir: Frame, p: VPage)
    requires IsRam(ram) && IsRam(ram')
  {
    && Walk(ram', dir, p) == Walk(ram, dir, p)
    && (Walk(ram, dir, p).Some? ==> FrameAt(ram', Walk(ram, dir, p).value) == FrameAt(ram, Walk(ram, dir, p).value))
  }

  /** Allocating kernel pages does not show in user space. */
  lemma KernelPagesKeepUser(boot: Frame, ram: Ram, ram': Ram, dirs: set<Frame>, pools: Pools, pools': Pools, cr3: Frame,
                            b: nat, count: nat)
    requires Inv(boot, ram, dirs, pools) && Inv(boot, ram', dirs, pools') && cr3 in dirs
    requires RunBacked(boot, ram, ram', dirs, pools'.krnlAddr, pools.krnlMem, cr3, b, count, count)
    requires UsedDataKept(ram, ram', dirs, pools.krnlMem)
    ensures UserSideKept(boot, ram, ram', dirs)
  {
    hide Walk, SpacesOk, IsRam, TableOf, SamePage, PageAt, NumberOf;
    forall dir, p: VPage | dir in dirs && IsUserPage(boot, dir, p) ensures PageKept(ram, ram', dir, p) {
      forall j | b <= j < b + count && j < FRAMES ensures !SamePage(boot, dir, p, cr3, PageAt(j)) {
        assert pools'.krnlAddr.IsUsed(j);
        PoolPages(boot, ram', dirs, pools', Kernel, cr3, j);
        SameKernelPage(boot, dir, p, cr3, PageAt(j));
      }
      assert !OnRun(boot, dir, p, cr3, b, count);
      if Walk(ram, dir, p).Some? {
        UserFrame(boot, ram, dirs, pools, dir, p);
        UserFrame(boot, ram', dirs, pools', dir, p);
        assert !pools.krnlMem.IsFree(Walk(ram, dir, p).value);
      }
    }
  }

  /** The frame of a user page is an allocated user frame, so no directory and no table. */
  lemma UserFrame(boot: Frame, ram: Ram, dirs: set<Frame>, pools: Pools, dir: Frame, p: VPage)
    requires Inv(boot, ram, dirs, pools) && dir in dirs && IsUserPage(boot, dir, p) && Walk(ram, dir, p).Some?
    ensures var f := Walk(ram, dir, p).value;
      f !in dirs && !IsTable(ram, dirs, f) && pools.usrMem.IsUsed(f) && !pools.krnlMem.Has(f)
    ensures dir in pools.usrAddr && pools.usrAddr[dir].IsUsed(NumberOf(p))
  {
  }

  lemma UserSideKeptTrans(boot: Frame, ram0: Ram, ram1: Ram, ram2: Ram, dirs: set<Frame>, dirs': set<Frame>)
    requires IsRam(ram0) && IsRam(ram1) && IsRam(ram2) && dirs <= dirs'
    requires UserSideKept(boot, ram0, ram1, dirs) && UserSideKept(boot, ram1, ram2, dirs')
    ensures UserSideKept(boot, ram0, ram2, dirs)
  {
    hide Walk, IsRam, FrameAt;
    forall dir, p: VPage | dir in dirs && IsUserPage(boot, dir, p) ensures PageKept(ram0, ram2, dir, p) {
      assert PageKept(ram0, ram1, dir, p);
      assert PageKept(ram1, ram2, dir, p);
    }
  }

  // A new page directory.

  lemma NewDirTables(boot: Frame, ram: Ram, dirs: set<Frame>, cr3: Frame, f: Frame)
    requires IsRam(ram) && SpacesOk(boot, ram, dirs) && cr3 in dirs && f !in dirs && !IsTable(ram, dirs, f)
    ensures var ram' := PutFrame(ram, f, NewDirectory(FrameAt(ram, cr3), f));
      && (forall dir, d :: dir in dirs && 0 <= d < ENTRIES ==> TableOf(ram', dir, d) == TableOf(ram, dir, d))
      && (forall d :: 0 <= d < KRNL_START ==> TableOf(ram', f, d).None?)
      && (forall d :: KRNL_START <= d < SELF_REF ==>
           TableOf(ram', f, d) == TableOf(ram, boot, d) && ram'[f][d] == ram[boot][d])
      && TableOf(ram', f, SELF_REF) == Some(f)
  {
    MappingFields(0, f);
    UnusedEntry();
    hide Mapping;
    assert forall d :: KRNL_START <= d < SELF_REF ==> ram[cr3][d] == ram[boot][d];
  }

  lemma NewDirSpaces(boot: Frame, ram: Ram, dirs: set<Frame>, cr3: Frame, f: Frame)
    requires IsRam(ram) && SpacesOk(boot, ram, dirs) && cr3 in dirs && f !in dirs && !IsTable(ram, dirs, f)
    ensures var ram' := PutFrame(ram, f, NewDirectory(FrameAt(ram, cr3), f));
      && SpacesOk(boot, ram', dirs + {f})
      && (forall g: nat :: IsTable(ram', dirs + {f}, g) <==> IsTable(ram, dirs, g))
      && (forall dir, p: VPage :: dir in dirs && p.d < SELF_REF ==> Walk(ram', dir, p) == Walk(ram, dir, p))
      && (forall p: VPage :: p.d < KRNL_START ==> Walk(ram', f, p).None?)
  {
    NewDirTables(boot, ram, dirs, cr3, f);
    var ram' := PutFrame(ram, f, NewDirectory(FrameAt(ram, cr3), f));
    var dirs' := dirs + {f};
    assert forall dir :: dir in dirs ==> ram'[dir] == ram[dir];
    NotTable(ram, dirs, f);
    hide TableOf, NewDirectory;
    NewDirHomes(boot, ram, ram', dirs, f);
    hide Home;
    NewDirIsTable(boot, ram, ram', dirs, f);
    hide IsTable;
  }

  /** The new directory has no table of its own. */
  lemma NewDirIsTable(boot: Frame, ram: Ram, ram': Ram, dirs: set<Frame>, f: Frame)
    requires IsRam(ram) && IsRam(ram') && SpacesOk(boot, ram, dirs) && f !in dirs
    requires forall dir, d :: dir in dirs && 0 <= d < ENTRIES ==> TableOf(ram', dir, d) == TableOf(ram, dir, d)
    requires forall d :: 0 <= d < KRNL_START ==> TableOf(ram', f, d).None?
    requires forall d :: KRNL_START <= d < SELF_REF ==> TableOf(ram', f, d) == TableOf(ram, boot, d)
    ensures forall g: nat :: IsTable(ram', dirs + {f}, g) <==> IsTable(ram, dirs, g)
  {
    var dirs' := dirs + {f};
    BootIn(boot, ram, dirs);
    hide TableOf, SpacesOk, IsRam;
    forall g: nat ensures IsTable(ram', dirs', g) <==> IsTable(ram, dirs, g) {
      if IsTable(ram, dirs, g) {
        var dir, d :| dir in dirs && 0 <= d < SELF_REF && TableOf(ram, dir, d) == Some(g);
        assert dir in dirs' && TableOf(ram', dir, d) == Some(g);
      }
      if IsTable(ram', dirs', g) {
        var dir, d :| dir in dirs' && 0 <= d < SELF_REF && TableOf(ram', dir, d) == Some(g);
        assert TableOf(ram, if dir == f then boot else dir, d) == Some(g);
      }
    }
  }

  /** The slots of the new directory are filed with the tables they share. */
  lemma NewDirHomes(boot: Frame, ram: Ram, ram': Ram, dirs: set<Frame>, f: Frame)
    requires IsRam(ram) && IsRam(ram') && SpacesOk(boot, ram, dirs) && f !in dirs
    requires forall dir, d :: dir in dirs && 0 <= d < ENTRIES ==> TableOf(ram', dir, d) == TableOf(ram, dir, d)
    requires forall d :: 0 <= d < KRNL_START ==> TableOf(ram', f, d).None?
    requires forall d :: KRNL_START <= d < SELF_REF ==> TableOf(ram', f, d) == TableOf(ram, boot, d)
    ensures forall dir, d, dir', d' ::
      dir in dirs + {f} && dir' in dirs + {f} && 0 <= d < SELF_REF && 0 <= d' < SELF_REF
      && TableOf(ram', dir, d).Some? && TableOf(ram', dir, d) == TableOf(ram', dir', d')
      ==> Home(boot, dir, d) == Home(boot, dir', d')
  {
    hide TableOf, IsRam;
    forall dir, d, dir', d' | dir in dirs + {f} && dir' in dirs + {f} && 0 <= d < SELF_REF && 0 <= d' < SELF_REF
         && TableOf(ram', dir, d).Some? && TableOf(ram', dir, d) == TableOf(ram', dir', d')
      ensures Home(boot, dir, d) == Home(boot, dir', d')
    {
      var e, e' := if dir == f then boot else dir, if dir' == f then boot else dir';
      assert TableOf(ram, e, d) == TableOf(ram, e', d');
      assert Home(boot, dir, d) == Home(boot, e, d) && Home(boot, dir', d') == Home(boot, e', d');
    }
  }

  /** A new directory in a kernel page keeps the invariant, and all user spaces. */
  lemma NewDirKeepsInv(boot: Frame, ram: Ram, dirs: set<Frame>, pools: Pools, cr3: Frame, f: Frame)
    requires Inv(boot, ram, dirs, pools) && cr3 in dirs && f !in dirs && !IsTable(ram, dirs, f)
    requires pools.krnlMem.IsUsed(f)
    ensures var ram' := PutFrame(ram, f, NewDirectory(FrameAt(ram, cr3), f));
      && Inv(boot, ram', dirs + {f}, pools.(usrAddr := pools.usrAddr[f := EmptyUserPool()]))
      && UserSideKept(boot, ram, ram', dirs)
      && (forall dir, p: VPage :: dir in dirs && p.d < SELF_REF ==> Walk(ram', dir, p) == Walk(ram, dir, p))
      && (forall d :: 0 <= d < KRNL_START ==> TableOf(ram', f, d).None?)
  {
    NewDirSpaces(boot, ram, dirs, cr3, f);
    NewDirTables(boot, ram, dirs, cr3, f);
    var ram' := PutFrame(ram, f, NewDirectory(FrameAt(ram, cr3), f));
    var pools' := pools.(usrAddr := pools.usrAddr[f := EmptyUserPool()]);
    BootIn(boot, ram, dirs);
    KernelPagesBelowSelf(pools);
    NewDirUser(boot, ram, ram', dirs, pools, f);
    OtherFrameKeepsUser(boot, ram, dirs, pools, f, NewDirectory(FrameAt(ram, cr3), f));
    NewDirFrames(ram, ram', dirs, pools, f);
    hide Walk, SpacesOk, IsRam, TableOf, NumberOf, IsTable, NewDirectory, PutFrame, EmptyUserPool, UserOk, FramesOk,
      FrameAt, UserSideKept;
    KernelSame(boot, ram, ram', dirs, dirs + {f}, pools, pools');
  }

  lemma NewDirUser(boot: Frame, ram: Ram, ram': Ram, dirs: set<Frame>, pools: Pools, f: Frame)
    requires IsRam(ram) && IsRam(ram') && UserOk(boot, ram, dirs, pools) && boot in dirs && f !in dirs
    requires forall dir, p: VPage :: dir in dirs && p.d < SELF_REF ==> Walk(ram', dir, p) == Walk(ram, dir, p)
    requires forall p: VPage :: p.d < KRNL_START ==> Walk(ram', f, p).None?
    ensures UserOk(boot, ram', dirs + {f}, pools.(usrAddr := pools.usrAddr[f := EmptyUserPool()]))
  {
    UserPoolSize();
    hide Walk, IsRam, NumberOf, EmptyUserPool;
  }

  /** Writing to a frame that no user page has does not show in user space. */
  lemma OtherFrameKeepsUser(boot: Frame, ram: Ram, dirs: set<Frame>, pools: Pools, f: Frame, content: seq<Word>)
    requires Inv(boot, ram, dirs, pools) && f !in dirs && !IsTable(ram, dirs, f) && |content| == ENTRIES
    requires pools.krnlMem.IsUsed(f)
    ensures UserSideKept(boot, ram, PutFrame(ram, f, content), dirs)
  {
    DataWriteKeepsInv(boot, ram, dirs, pools, f, content);
    var ram' := PutFrame(ram, f, content);
    hide Walk, SpacesOk, IsRam, TableOf, NumberOf, KernelOk, PutFrame;
    forall dir, p: VPage | dir in dirs && IsUserPage(boot, dir, p) ensures PageKept(ram, ram', dir, p) {
      if Walk(ram, dir, p).Some? {
        UserFrame(boot, ram, dirs, pools, dir, p);
      }
    }
  }

  lemma NewDirFrames(ram: Ram, ram': Ram, dirs: set<Frame>, pools: Pools, f: Frame)
    requires IsRam(ram) && IsRam(ram') && FramesOk(ram, dirs, pools) && pools.krnlMem.IsUsed(f)
    requires forall g: nat :: IsTable(ram', dirs + {f}, g) <==> IsTable(ram, dirs, g)
    ensures FramesOk(ram', dirs + {f}, pools.(usrAddr := pools.usrAddr[f := EmptyUserPool()]))
  {
    hide IsRam, IsTable;
  }

  // Copying memory.

  /** The marked pages among the first `i` slots of a pool. */
  function CountMarked(bits: Bits, i: nat): nat
    requires i <= |bits|
  {
    if i == 0 then 0 else CountMarked(bits, i - 1) + if bits[i - 1] then 1 else 0
  }

  /** Some marked page at or after slot `i` needs the table of directory slot `d`. */
  ghost predicate Wanted(pool: Pool, i: nat, d: nat) {
    exists j :: i <= j < |pool.bits| && pool.bits[j] && (pool.start + j) / ENTRIES == d
  }

  /** The directory slots that still need a table to hold the marked pages from slot `i` on. */
  ghost function MissingTables(ram: Ram, dir: Frame, pool: Pool, i: nat): set<nat>
    requires IsRam(ram)
  {
    set d | 0 <= d < KRNL_START && TableOf(ram, dir, d).None? && Wanted(pool, i, d)
  }

  /** The child's page with number `n` holds what the parent's page held. */
  ghost predicate PageCopied(ram0: Ram, ram: Ram, parent: Frame, child: Frame, n: nat)
    requires IsRam(ram0) && IsRam(ram) && n < FRAMES
  {
    && Walk(ram, child, PageAt(n)).Some? && Walk(ram0, parent, PageAt(n)).Some?
    && FrameAt(ram, Walk(ram, child, PageAt(n)).value) == FrameAt(ram0, Walk(ram0, parent, PageAt(n)).value)
  }

  /** The child's pool and pages match the parent's marked pages below slot `i`, and it has no others. */
  ghost predicate CopiedBelow(ram0: Ram, ram: Ram, pools0: Pools, pools: Pools, parent: Frame, child: Frame, i: nat)
    requires IsRam(ram0) && IsRam(ram) && parent in pools0.usrAddr && child in pools.usrAddr
  {
    var (pool, copy) := (pools0.usrAddr[parent], pools.usrAddr[child]);
    && i <= |pool.bits| == |copy.bits| && copy.start == pool.start && pool.start + |pool.bits| <= FRAMES
    && (forall j :: 0 <= j < |pool.bits| ==> (copy.bits[j] <==> j < i && pool.bits[j]))
    && (forall j :: 0 <= j < i && pool.bits[j] ==> PageCopied(ram0, ram, parent, child, pool.start + j))
  }

  /** How many frames and tables the copy of the marked pages below slot `i` has taken. */
  ghost predicate FramesSpent(ram0: Ram, ram: Ram, pools0: Pools, pools: Pools, parent: Frame, child: Frame, i: nat)
    requires IsRam(ram0) && IsRam(ram) && parent in pools0.usrAddr && i <= |pools0.usrAddr[parent].bits|
  {
    var pool := pools0.usrAddr[parent];
    && CountFree(pools.usrMem.bits) + CountMarked(pool.bits, i) == CountFree(pools0.usrMem.bits)
    && CountFree(pools.krnlMem.bits) + |MissingTables(ram0, child, pool, 0)|
         == CountFree(pools0.krnlMem.bits) + |MissingTables(ram, child, pool, i)|
  }

  lemma SameOthersTrans(usr0: map<Frame, Pool>, usr1: map<Frame, Pool>, usr2: map<Frame, Pool>, child: Frame)
    requires SameOthers(usr0, usr1, child) && SameOthers(usr1, usr2, child)
    ensures SameOthers(usr0, usr2, child)
  {
  }

  /** The state of the copying loop. */
  ghost predicate CopyLoop(boot: Frame, ram0: Ram, ram: Ram, dirs: set<Frame>, pools0: Pools, pools: Pools,
                           parent: Frame, child: Frame, buf: VPage, i: nat)
    requires IsRam(ram0) && IsRam(ram)
  {
    && parent in pools0.usrAddr && child in pools.usrAddr && i <= |pools0.usrAddr[parent].bits|
    && SameOthers(pools0.usrAddr, pools.usrAddr, child) && pools.krnlAddr == pools0.krnlAddr
    && UserSideKept(boot, ram0, ram, dirs - {child})
    && CopiedBelow(ram0, ram, pools0, pools, parent, child, i)
    && FramesSpent(ram0, ram, pools0, pools, parent, child, i)
    && Walk(ram, boot, buf) == Walk(ram0, boot, buf)
  }

  /** A page of kernel space that may be used as a copy buffer. */
  ghost predicate IsBuffer(boot: Frame, ram: Ram, dirs: set<Frame>, pools: Pools, buf: VPage)
    requires IsRam(ram)
  {
    && KRNL_START <= buf.d < SELF_REF && pools.krnlAddr.IsUsed(NumberOf(buf))
    && Walk(ram, boot, buf).Some? && Walk(ram, boot, buf).value !in dirs
  }

  /** Marks the page with number `n` and backs it with a frame. */
  method AllocPageAtAddr(m: Memory, kind: PoolType, n: nat) returns (r: MapResult)
    requires Valid(m) && HasPools(m, kind)
    requires AddrPool(m.pools, kind, m.cr3).Has(n) && n < FRAMES && Walk(m.ram, m.cr3, PageAt(n)).None?
    modifies m`ram, m`pools
    ensures IsRam(m.ram)
    ensures r.NoFrame? <==> CountFree(MemPool(old(m.pools), kind).bits) == 0
    ensures r.NoFrame? ==>
      && m.ram == old(m.ram)
      && m.pools == WithAddrPool(old(m.pools), kind, m.cr3, AddrPool(old(m.pools), kind, m.cr3).With(n, true))
    ensures r.NoTable? <==>
      && CountFree(MemPool(old(m.pools), kind).bits) > 0
      && TableOf(old(m.ram), m.cr3, PageAt(n).d).None? && CountFree(old(m.pools).krnlMem.bits) == 0
    ensures r.Mapped? ==>
      && Valid(m) && HasPools(m, kind)
      && AddrPool(m.pools, kind, m.cr3) == AddrPool(old(m.pools), kind, m.cr3).With(n, true)
      && OneFrameTaken(WithAddrPool(old(m.pools), kind, m.cr3, AddrPool(old(m.pools), kind, m.cr3).With(n, true)),
                       m.pools, kind, r.frame)
      && WalksChangedAt(m.boot, old(m.ram), m.ram, m.dirs, m.cr3, PageAt(n), Some(r.frame))
      && PageStored(old(m.ram), m.ram, m.cr3, n / 1024, n % 1024, r.frame)
      && DataKept(old(m.ram), m.ram, m.dirs)
      && CountFree(MemPool(m.pools, kind).bits) == CountFree(MemPool(old(m.pools), kind).bits) - 1
      && (kind.User? && TableOf(old(m.ram), m.cr3, PageAt(n).d).Some? ==> m.pools.krnlMem == old(m.pools).krnlMem)
      && (TableOf(old(m.ram), m.cr3, PageAt(n).d).None? ==>
           CountFree(m.pools.krnlMem.bits) == CountFree(old(m.pools).krnlMem.bits) - 1)
      && (forall d :: 0 <= d < SELF_REF ==>
           (TableOf(m.ram, m.cr3, d).Some? <==> TableOf(old(m.ram), m.cr3, d).Some? || d == PageAt(n).d))
  {
    hide Walk, FramesOk, UserOk, KernelOk, SpacesOk, IsRam, PageAt, TableOf, OffRunSame, DataKept, IsTable, CountFree,
      NumberOf, WalksChangedAt, PageStored;
    var pool := AddrPool(m.pools, kind, m.cr3);
    AddrPoolKeepsInv(m.boot, m.ram, m.dirs, m.pools, kind, m.cr3, pool.With(n, true));
    m.pools := WithAddrPool(m.pools, kind, m.cr3, pool.With(n, true));
    r := AllocAndMap(m, kind, n);
  }

  /** The translation of the buffer is the same in every space, and its frame holds nothing else. */
  lemma BufferFrame(boot: Frame, ram: Ram, dirs: set<Frame>, pools: Pools, dir: Frame, buf: VPage)
    requires Inv(boot, ram, dirs, pools) && dir in dirs && IsBuffer(boot, ram, dirs, pools, buf)
    ensures Walk(ram, dir, buf) == Walk(ram, boot, buf)
    ensures var f := Walk(ram, boot, buf).value; f !in dirs && !IsTable(ram, dirs, f) && pools.krnlMem.IsUsed(f)
  {
    BootIn(boot, ram, dirs);
    KernelPagesShared(boot, ram, dirs, dir, boot, buf);
  }

  /** Every user page but the child's new one is kept. */
  ghost predicate OthersKeptBut(boot: Frame, ram: Ram, ram': Ram, dirs: set<Frame>, child: Frame, q: VPage)
    requires IsRam(ram) && IsRam(ram')
  {
    forall dir, p: VPage :: dir in dirs && IsUserPage(boot, dir, p) && !(dir == child && p == q) ==>
      PageKept(ram, ram', dir, p)
  }

  /** Mapping the child's page keeps every other user page and the buffer. */
  lemma MapChildPage(boot: Frame, ram1: Ram, ram2: Ram, dirs: set<Frame>, pools1: Pools, pools2: Pools, child: Frame,
                     q: VPage, f: Frame, buf: VPage)
    requires Inv(boot, ram1, dirs, pools1) && Inv(boot, ram2, dirs, pools2) && child in dirs
    requires IsUserPage(boot, child, q) && WalksChangedAt(boot, ram1, ram2, dirs, child, q, Some(f))
    requires DataKept(ram1, ram2, dirs)
    requires IsBuffer(boot, ram1, dirs, pools1, buf) && pools2.krnlAddr == pools1.krnlAddr
    ensures OthersKeptBut(boot, ram1, ram2, dirs, child, q) && Walk(ram2, child, q) == Some(f)
    ensures Walk(ram2, boot, buf) == Walk(ram1, boot, buf) && IsBuffer(boot, ram2, dirs, pools2, buf)
    ensures FrameAt(ram2, Walk(ram1, boot, buf).value) == FrameAt(ram1, Walk(ram1, boot, buf).value)
  {
    BootIn(boot, ram1, dirs);
    SameUserPage(boot, boot, buf, child, q);
    SameUserPage(boot, child, q, child, q);
    BufferFrame(boot, ram1, dirs, pools1, boot, buf);
    assert Walk(ram2, boot, buf) == Walk(ram1, boot, buf);
    BufferFrame(boot, ram2, dirs, pools2, boot, buf);
    hide Walk, SpacesOk, IsRam, TableOf, NumberOf, KernelOk, FrameAt, SamePage, IsTable, UserOk, FramesOk;
    forall dir, p: VPage | dir in dirs && IsUserPage(boot, dir, p) && !(dir == child && p == q)
      ensures PageKept(ram1, ram2, dir, p)
    {
      SameUserPage(boot, dir, p, child, q);
      if Walk(ram1, dir, p).Some? {
        UserFrame(boot, ram2, dirs, pools2, dir, p);
      }
    }
  }

  /** Filling the child's new page keeps every other user page. */
  lemma FillChildPage(boot: Frame, ram: Ram, dirs: set<Frame>, pools: Pools, child: Frame, q: VPage, f: Frame,
                      content: seq<Word>, buf: VPage)
    requires Inv(boot, ram, dirs, pools) && child in dirs && IsUserPage(boot, child, q)
    requires Walk(ram, child, q) == Some(f)
    requires |content| == ENTRIES && KRNL_START <= buf.d < SELF_REF
    ensures var ram' := PutFrame(ram, f, content);
      && Inv(boot, ram', dirs, pools)
      && OthersKeptBut(boot, ram, ram', dirs, child, q)
      && Walk(ram', child, q) == Some(f) && FrameAt(ram', f) == content
      && Walk(ram', boot, buf) == Walk(ram, boot, buf)
      && SameTables(ram, ram', dirs)
  {
    UserFrame(boot, ram, dirs, pools, child, q);
    DataWriteKeepsInv(boot, ram, dirs, pools, f, content);
    BootIn(boot, ram, dirs);
    var ram' := PutFrame(ram, f, content);
    hide Walk, SpacesOk, IsRam, TableOf, NumberOf, KernelOk, FramesOk, IsTable, PutFrame, FrameAt;
    forall dir, p: VPage | dir in dirs && IsUserPage(boot, dir, p) && !(dir == child && p == q)
      ensures PageKept(ram, ram', dir, p)
    {
      assert Walk(ram, dir, p).Some? ==> Walk(ram, dir, p) != Walk(ram, child, q);
    }
  }

  lemma OthersKeptTrans(boot: Frame, ram0: Ram, ram1: Ram, ram2: Ram, ram3: Ram, dirs: set<Frame>, child: Frame,
                        q: VPage)
    requires IsRam(ram0) && IsRam(ram1) && IsRam(ram2) && IsRam(ram3)
    requires UserSideKept(boot, ram0, ram1, dirs)
    requires OthersKeptBut(boot, ram1, ram2, dirs, child, q) && OthersKeptBut(boot, ram2, ram3, dirs, child, q)
    ensures OthersKeptBut(boot, ram0, ram3, dirs, child, q)
  {
    hide Walk, IsRam, FrameAt;
    forall dir, p: VPage | dir in dirs && IsUserPage(boot, dir, p) && !(dir == child && p == q)
      ensures PageKept(ram0, ram3, dir, p)
    {
      assert PageKept(ram0, ram1, dir, p);
      assert PageKept(ram1, ram2, dir, p);
      assert PageKept(ram2, ram3, dir, p);
    }
  }

  /** One page of the parent's has been copied to the child. */
  ghost predicate PageStep(boot: Frame, ram: Ram, ram': Ram, dirs: set<Frame>, pools: Pools, pools': Pools,
                           parent: Frame, child: Frame, n: nat, f: Frame)
    requires IsRam(ram) && IsRam(ram') && n < FRAMES
  {
    && child in pools.usrAddr && pools.usrAddr[child].Has(n)
    && pools'.usrAddr == pools.usrAddr[child := pools.usrAddr[child].With(n, true)]
    && pools'.krnlAddr == pools.krnlAddr
    && OthersKeptBut(boot, ram, ram', dirs, child, PageAt(n))
    && Walk(ram', child, PageAt(n)) == Some(f) && Walk(ram, parent, PageAt(n)).Some?
    && FrameAt(ram', f) == FrameAt(ram, Walk(ram, parent, PageAt(n)).value)
    && FramesStep(ram, ram', pools, pools', child, PageAt(n).d)
  }

  /** One user frame has been spent, and one frame for a table if directory slot `e` had none. */
  ghost predicate FramesStep(ram: Ram, ram': Ram, pools: Pools, pools': Pools, child: Frame, e: nat)
    requires IsRam(ram) && IsRam(ram') && e < ENTRIES
  {
    && CountFree(pools'.usrMem.bits) == CountFree(pools.usrMem.bits) - 1
    && CountFree(pools'.krnlMem.bits) == CountFree(pools.krnlMem.bits) - (if TableOf(ram, child, e).None? then 1 else 0)
    && (forall d :: 0 <= d < SELF_REF ==> (TableOf(ram', child, d).Some? <==> TableOf(ram, child, d).Some? || d == e))
  }

  /** User pages of `dir` that are open stay so. */
  ghost predicate OpensKept(ram: Ram, ram': Ram, dir: Frame)
    requires IsRam(ram) && IsRam(ram')
  {
    forall j: nat :: j / 1024 < KRNL_START && IsOpen(ram, dir, j) ==> IsOpen(ram', dir, j)
  }

  lemma WriteOpens(boot: Frame, ram: Ram, dirs: set<Frame>, dir: Frame, f: Frame, content: seq<Word>)
    requires IsRam(ram) && SpacesOk(boot, ram, dirs) && dir in dirs && |content| == ENTRIES
    requires f !in dirs && !IsTable(ram, dirs, f)
    ensures OpensKept(ram, PutFrame(ram, f, content), dir)
  {
    hide IsOpen, SpacesOk, PutFrame, IsTable;
    forall j: nat | j / 1024 < KRNL_START && IsOpen(ram, dir, j) ensures IsOpen(PutFrame(ram, f, content), dir, j) {
      OpenAfterWrite(boot, ram, dirs, dir, f, content, j);
    }
  }

  lemma MapOpens(boot: Frame, ram: Ram, ram': Ram, dirs: set<Frame>, dir: Frame, n: nat, frame: Frame)
    requires IsRam(ram) && IsRam(ram') && SpacesOk(boot, ram, dirs) && SpacesOk(boot, ram', dirs) && dir in dirs
    requires dir != boot && n < FRAMES && n / 1024 < KRNL_START
    requires PageStored(ram, ram', dir, n / 1024, n % 1024, frame)
    requires OthersKeptBut(boot, ram, ram', dirs, dir, PageAt(n))
    ensures OpensKept(ram, ram', dir) && IsOpen(ram', dir, n)
  {
    OpenMapped(ram, ram', dir, n, frame);
    forall j: nat | j / 1024 < KRNL_START && IsOpen(ram, dir, j) ensures IsOpen(ram', dir, j) {
      if j != n {
        OpenIsMapped(ram, dir, j);
        PageNumbers(j, PageAt(n));
        PageNumbers(n, PageAt(j));
        assert PageKept(ram, ram', dir, PageAt(j));
        hide IsOpen, SpacesOk, PageStored, Walk, OthersKeptBut;
        OpenKept(boot, ram, ram', dirs, dir, n, frame, j);
      }
    }
  }

  lemma OpenIsMapped(ram: Ram, dir: Frame, j: nat)
    requires IsRam(ram) && IsOpen(ram, dir, j)
    ensures Walk(ram, dir, PageAt(j)).Some? && PageAt(j).d == j / 1024
  {
    var (d, t) := (j / 1024, j % 1024);
    assert PageAt(j) == Page(d, t) && TableOf(ram, dir, d) == Some(ram[dir][d] / 4096);
    hide PageAt, TableOf;
    LowOdd(ram[ram[dir][d] / 4096][t]);
  }

  lemma LowOdd(w: Word)
    requires w % 8 == 7
    ensures IsPresent(w)
  {
  }

  lemma OpensTrans(ram0: Ram, ram1: Ram, ram2: Ram, dir: Frame, n: nat)
    requires IsRam(ram0) && IsRam(ram1) && IsRam(ram2) && OpensKept(ram0, ram1, dir) && OpensKept(ram1, ram2, dir)
    ensures OpensKept(ram0, ram2, dir)
    ensures n / 1024 < KRNL_START && IsOpen(ram1, dir, n) ==> IsOpen(ram2, dir, n)
  {
    hide IsOpen;
  }

  /** The pages of the first `i` slots of a pool that are marked are open in `dir`. */
  ghost predicate MarkedOpen(ram: Ram, dir: Frame, pool: Pool, i: nat)
    requires IsRam(ram) && i <= |pool.bits|
  {
    forall j: nat :: j < i && pool.bits[j] ==> IsOpen(ram, dir, pool.start + j)
  }

  lemma MarkedOpenStep(ram: Ram, ram': Ram, dir: Frame, pool: Pool, i: nat)
    requires IsRam(ram) && IsRam(ram') && i < |pool.bits| && pool.start + |pool.bits| <= KRNL_START * ENTRIES
    requires MarkedOpen(ram, dir, pool, i) && OpensKept(ram, ram', dir) && IsOpen(ram', dir, pool.start + i)
    ensures MarkedOpen(ram', dir, pool, i + 1)
  {
    hide IsOpen;
    forall j: nat | j < i + 1 && pool.bits[j] ensures IsOpen(ram', dir, pool.start + j) {
      assert j < i ==> IsOpen(ram, dir, pool.start + j) && (pool.start + j) / 1024 < KRNL_START;
    }
  }

  /** Copies the parent's page with number `n` to the child, by way of the buffer. */
  method CopyPage(m: Memory, parent: Frame, child: Frame, n: nat, buf: VPage) returns (r: MapResult)
    requires Valid(m) && m.cr3 == parent && parent in m.pools.usrAddr && child in m.pools.usrAddr && parent != child
    requires IsBuffer(m.boot, m.ram, m.dirs, m.pools, buf)
    requires n < FRAMES && Walk(m.ram, parent, PageAt(n)).Some? && m.pools.usrAddr[parent].IsUsed(n)
    requires m.pools.usrAddr[child].IsFree(n)
    modifies m`ram, m`cr3, m`pools
    ensures r.NoFrame? <==> CountFree(old(m.pools).usrMem.bits) == 0
    ensures r.NoTable? ==> CountFree(old(m.pools).krnlMem.bits) == 0 && TableOf(old(m.ram), child, PageAt(n).d).None?
    ensures r.Mapped? ==>
      && Valid(m) && m.cr3 == parent
      && PageStep(m.boot, old(m.ram), m.ram, m.dirs, old(m.pools), m.pools, parent, child, n, r.frame)
      && Walk(m.ram, m.boot, buf) == Walk(old(m.ram), m.boot, buf)
      && IsBuffer(m.boot, m.ram, m.dirs, m.pools, buf)
      && IsOpen(m.ram, child, n) && OpensKept(old(m.ram), m.ram, child)
  {
    hide FramesOk, UserOk, KernelOk, SpacesOk, IsRam, PageAt, TableOf, OffRunSame, DataKept, IsTable, CountFree,
      NumberOf, WalksChangedAt, FrameAt, PutFrame, IsOpen, OpensKept, PageStored;
    ghost var ram0 := m.ram;
    PoolPages(m.boot, m.ram, m.dirs, m.pools, User, parent, n);
    assert child in m.dirs && child != m.boot && n / 1024 < KRNL_START && IsUserPage(m.boot, child, PageAt(n))
        && IsUserPage(m.boot, parent, PageAt(n)) by {
      SlotOf(n);
      UserDirs(m.boot, m.ram, m.dirs, m.pools, child);
      UserDirs(m.boot, m.ram, m.dirs, m.pools, parent);
    }
    UnmarkedUnmapped(m.boot, m.ram, m.dirs, m.pools, User, child, n);
    BufferFrame(m.boot, m.ram, m.dirs, m.pools, parent, buf);
    hide Walk;

    // The page goes to the buffer, under the parent's directory.
    var src, dst := Walk(m.ram, m.cr3, PageAt(n)).value, Walk(m.ram, m.cr3, buf).value;
    DataWriteKeepsInv(m.boot, m.ram, m.dirs, m.pools, dst, FrameAt(m.ram, src));
    OtherFrameKeepsUser(m.boot, m.ram, m.dirs, m.pools, dst, FrameAt(m.ram, src));
    BootIn(m.boot, m.ram, m.dirs);
    WriteOpens(m.boot, m.ram, m.dirs, child, dst, FrameAt(m.ram, src));
    m.ram := PutFrame(m.ram, dst, FrameAt(m.ram, src));
    ghost var ram1, pools1 := m.ram, m.pools;

    // The child gets a page at the same address.
    m.cr3 := child;
    r := AllocPageAtAddr(m, User, n);
    if !r.Mapped? {
      return;
    }
    ghost var ram2 := m.ram;
    MapChildPage(m.boot, ram1, ram2, m.dirs, pools1, m.pools, child, PageAt(n), r.frame, buf);
    BufferFrame(m.boot, ram2, m.dirs, m.pools, child, buf);
    MapOpens(m.boot, ram1, ram2, m.dirs, child, n, r.frame);
    UserFrame(m.boot, ram2, m.dirs, m.pools, child, PageAt(n));

    // The buffer goes to that page, under the child's directory.
    src, dst := Walk(m.ram, m.cr3, buf).value, Walk(m.ram, m.cr3, PageAt(n)).value;
    FillChildPage(m.boot, m.ram, m.dirs, m.pools, child, PageAt(n), dst, FrameAt(m.ram, src), buf);
    WriteOpens(m.boot, m.ram, m.dirs, child, dst, FrameAt(m.ram, src));
    m.ram := PutFrame(m.ram, dst, FrameAt(m.ram, src));
    m.cr3 := parent;
    OpensTrans(ram0, ram1, ram2, child, n);
    OpensTrans(ram0, ram2, m.ram, child, n);
    OthersKeptTrans(m.boot, ram0, ram1, ram2, m.ram, m.dirs, child, PageAt(n));
  }

  lemma UserDirs(boot: Frame, ram: Ram, dirs: set<Frame>, pools: Pools, dir: Frame)
    requires Inv(boot, ram, dirs, pools) && dir in pools.usrAddr
    ensures dir in dirs && dir != boot
    ensures ENTRIES <= pools.usrAddr[dir].start
    ensures pools.usrAddr[dir].start + |pools.usrAddr[dir].bits| <= KRNL_START * ENTRIES
  {
  }

  // The loop over all pages.

  /** How one more page shows in the set of tables still missing. */
  lemma MissingStep(ram: Ram, ram': Ram, dir: Frame, pool: Pool, i: nat, taken: bool)
    requires IsRam(ram) && IsRam(ram') && i < |pool.bits| && pool.start + |pool.bits| <= KRNL_START * ENTRIES
    requires taken == pool.bits[i]
    requires forall d :: 0 <= d < KRNL_START ==>
      (TableOf(ram', dir, d).Some? <==> TableOf(ram, dir, d).Some? || (taken && d == (pool.start + i) / ENTRIES))
    ensures var d := (pool.start + i) / ENTRIES;
      |MissingTables(ram', dir, pool, i + 1)| ==
        |MissingTables(ram, dir, pool, i)| - (if taken && TableOf(ram, dir, d).None? then 1 else 0)
    ensures taken && TableOf(ram, dir, (pool.start + i) / ENTRIES).None? ==> |MissingTables(ram, dir, pool, i)| > 0
  {
    var d := (pool.start + i) / ENTRIES;
    var before, after := MissingTables(ram, dir, pool, i), MissingTables(ram', dir, pool, i + 1);
    hide TableOf, IsRam, Wanted;
    forall e: nat | e < KRNL_START ensures Wanted(pool, i, e) <==> Wanted(pool, i + 1, e) || (taken && e == d) {
      WantedStep(pool, i, e);
    }
    if taken && TableOf(ram, dir, d).None? {
      assert d in before;
      assert after == before - {d};
    } else {
      assert after == before;
    }
  }

  lemma WantedStep(pool: Pool, i: nat, e: nat)
    requires i < |pool.bits|
    ensures Wanted(pool, i, e) <==> Wanted(pool, i + 1, e) || (pool.bits[i] && e == (pool.start + i) / ENTRIES)
  {
    if Wanted(pool, i, e) {
      var j :| i <= j < |pool.bits| && pool.bits[j] && (pool.start + j) / ENTRIES == e;
      assert j > i ==> Wanted(pool, i + 1, e);
    }
    if Wanted(pool, i + 1, e) {
      var j :| i + 1 <= j < |pool.bits| && pool.bits[j] && (pool.start + j) / ENTRIES == e;
      assert Wanted(pool, i, e);
    }
  }

  lemma NothingMissing(ram: Ram, dir: Frame, pool: Pool)
    requires IsRam(ram)
    ensures |MissingTables(ram, dir, pool, |pool.bits|)| == 0
  {
    assert MissingTables(ram, dir, pool, |pool.bits|) == {};
  }

  lemma CountMarkedMonotone(bits: Bits, i: nat, j: nat)
    requires i <= j <= |bits|
    ensures CountMarked(bits, i) <= CountMarked(bits, j)
  {
    if i < j {
      CountMarkedMonotone(bits, i, j - 1);
    }
  }

  lemma CopyStart(boot: Frame, ram: Ram, dirs: set<Frame>, pools: Pools, parent: Frame, child: Frame, buf: VPage)
    requires Inv(boot, ram, dirs, pools) && parent in pools.usrAddr && child in pools.usrAddr
    requires pools.usrAddr[child].start == pools.usrAddr[parent].start
    requires |pools.usrAddr[child].bits| == |pools.usrAddr[parent].bits|
    requires forall k :: 0 <= k < |pools.usrAddr[child].bits| ==> !pools.usrAddr[child].bits[k]
    ensures CopyLoop(boot, ram, ram, dirs, pools, pools, parent, child, buf, 0)
  {
    UserDirs(boot, ram, dirs, pools, parent);
  }

  lemma PageCopiedKept(boot: Frame, ram0: Ram, ram: Ram, ram': Ram, dirs: set<Frame>, parent: Frame, child: Frame,
                       n: nat, q: VPage)
    requires IsRam(ram0) && IsRam(ram) && IsRam(ram') && n < FRAMES && PageCopied(ram0, ram, parent, child, n)
    requires child in dirs && IsUserPage(boot, child, PageAt(n)) && PageAt(n) != q
    requires OthersKeptBut(boot, ram, ram', dirs, child, q)
    ensures PageCopied(ram0, ram', parent, child, n)
  {
    hide Walk, IsRam, FrameAt, PageAt;
    assert PageKept(ram, ram', child, PageAt(n));
  }

  /** One marked page further. */
  lemma CopiedStep(boot: Frame, ram0: Ram, ram: Ram, ram': Ram, dirs: set<Frame>, pools0: Pools, pools: Pools,
                   pools': Pools, parent: Frame, child: Frame, i: nat, f: Frame)
    requires IsRam(ram0) && Inv(boot, ram, dirs, pools) && IsRam(ram') && parent != child
    requires parent in pools0.usrAddr && child in pools.usrAddr && parent in pools.usrAddr
    requires pools.usrAddr[parent] == pools0.usrAddr[parent]
    requires CopiedBelow(ram0, ram, pools0, pools, parent, child, i)
    requires i < |pools0.usrAddr[parent].bits| && pools0.usrAddr[parent].bits[i]
    requires PageKept(ram0, ram, parent, PageAt(pools0.usrAddr[parent].start + i))
    requires PageStep(boot, ram, ram', dirs, pools, pools', parent, child, pools0.usrAddr[parent].start + i, f)
    ensures child in pools'.usrAddr && CopiedBelow(ram0, ram', pools0, pools', parent, child, i + 1)
  {
    hide Walk, FramesOk, UserOk, KernelOk, SpacesOk, IsRam, PageAt, FrameAt, OthersKeptBut, NumberOf, FramesStep,
      IsUserPage, PageCopied;
    var pool := pools0.usrAddr[parent];
    var n := pool.start + i;
    forall j | 0 <= j < i && pool.bits[j] ensures PageCopied(ram0, ram', parent, child, pool.start + j) {
      ChildPage(boot, ram, dirs, pools, child, pool.start + j, n);
      PageCopiedKept(boot, ram0, ram, ram', dirs, parent, child, pool.start + j, PageAt(n));
    }
    CopiedNew(boot, ram0, ram, ram', dirs, pools, pools', parent, child, n, f);
  }

  lemma ChildPage(boot: Frame, ram: Ram, dirs: set<Frame>, pools: Pools, child: Frame, j: nat, n: nat)
    requires Inv(boot, ram, dirs, pools) && child in pools.usrAddr && pools.usrAddr[child].Has(j) && j < FRAMES
    requires n < FRAMES
    ensures child in dirs && IsUserPage(boot, child, PageAt(j)) && (j != n ==> PageAt(j) != PageAt(n))
  {
    UserDirs(boot, ram, dirs, pools, child);
    PageNumbers(j, PageAt(n));
    PageNumbers(n, PageAt(j));
  }

  lemma CopiedNew(boot: Frame, ram0: Ram, ram: Ram, ram': Ram, dirs: set<Frame>, pools: Pools, pools': Pools,
                  parent: Frame, child: Frame, n: nat, f: Frame)
    requires IsRam(ram0) && IsRam(ram) && IsRam(ram') && n < FRAMES
    requires PageKept(ram0, ram, parent, PageAt(n))
    requires PageStep(boot, ram, ram', dirs, pools, pools', parent, child, n, f)
    ensures PageCopied(ram0, ram', parent, child, n)
  {
    hide Walk, IsRam, PageAt, FrameAt, OthersKeptBut, FramesStep;
  }

  lemma KeptStep(boot: Frame, ram0: Ram, ram: Ram, ram': Ram, dirs: set<Frame>, child: Frame, q: VPage)
    requires IsRam(ram0) && IsRam(ram) && IsRam(ram')
    requires UserSideKept(boot, ram0, ram, dirs - {child}) && OthersKeptBut(boot, ram, ram', dirs, child, q)
    ensures UserSideKept(boot, ram0, ram', dirs - {child})
  {
    hide Walk, IsRam, FrameAt;
    forall dir, p: VPage | dir in dirs - {child} && IsUserPage(boot, dir, p) ensures PageKept(ram0, ram', dir, p) {
      assert PageKept(ram0, ram, dir, p);
      assert PageKept(ram, ram', dir, p);
    }
  }

  /** The current process's pages, as the loop sees them, are the ones it started with. */
  lemma CopyNext(boot: Frame, ram0: Ram, ram: Ram, dirs: set<Frame>, pools0: Pools, pools: Pools, parent: Frame,
                 child: Frame, buf: VPage, i: nat)
    requires IsRam(ram0) && Inv(boot, ram, dirs, pools) && parent != child
    requires CopyLoop(boot, ram0, ram, dirs, pools0, pools, parent, child, buf, i)
    requires i < |pools0.usrAddr[parent].bits| && pools0.usrAddr[parent].bits[i]
    requires pools0.usrAddr[parent].start + i < FRAMES
    requires Walk(ram0, parent, PageAt(pools0.usrAddr[parent].start + i)).Some?
    ensures parent in pools.usrAddr && pools.usrAddr[parent] == pools0.usrAddr[parent]
    ensures pools.usrAddr[child].IsFree(pools0.usrAddr[parent].start + i)
    ensures PageKept(ram0, ram, parent, PageAt(pools0.usrAddr[parent].start + i))
  {
    hide Walk, FramesOk, UserOk, KernelOk, SpacesOk, IsRam, PageAt, FrameAt, FramesSpent, CopiedBelow, UserSideKept,
      PageKept;
    var n := pools0.usrAddr[parent].start + i;
    OtherPoolKept(pools0.usrAddr, pools.usrAddr, parent, child);
    ChildSlotFree(ram0, ram, pools0, pools, parent, child, i);
    PoolPageKept(boot, ram, dirs, pools, parent, n, ram0, ram, dirs - {child});
  }

  lemma ChildSlotFree(ram0: Ram, ram: Ram, pools0: Pools, pools: Pools, parent: Frame, child: Frame, i: nat)
    requires IsRam(ram0) && IsRam(ram) && parent in pools0.usrAddr && child in pools.usrAddr
    requires i < |pools0.usrAddr[parent].bits|
    requires CopiedBelow(ram0, ram, pools0, pools, parent, child, i)
    ensures pools.usrAddr[child].IsFree(pools0.usrAddr[parent].start + i)
  {
    hide IsRam, PageCopied;
  }

  /** A page of a process's pool is kept wherever the process's user space is. */
  lemma PoolPageKept(boot: Frame, ram: Ram, dirs: set<Frame>, pools: Pools, dir: Frame, n: nat, ram0: Ram, ram1: Ram,
                     kept: set<Frame>)
    requires Inv(boot, ram, dirs, pools) && dir in pools.usrAddr && pools.usrAddr[dir].Has(n) && n < FRAMES
    requires IsRam(ram0) && IsRam(ram1) && UserSideKept(boot, ram0, ram1, kept) && (dir in dirs ==> dir in kept)
    ensures PageKept(ram0, ram1, dir, PageAt(n))
  {
    ChildPage(boot, ram, dirs, pools, dir, n, n);
    hide Walk, Inv, FrameAt, PageAt, IsUserPage, PageKept;
  }

  lemma KeptWalk(ram: Ram, ram': Ram, dir: Frame, p: VPage)
    requires IsRam(ram) && IsRam(ram') && PageKept(ram, ram', dir, p)
    ensures Walk(ram', dir, p) == Walk(ram, dir, p)
  {
  }

  lemma OtherPoolKept(usr0: map<Frame, Pool>, usr: map<Frame, Pool>, parent: Frame, child: Frame)
    requires SameOthers(usr0, usr, child) && parent in usr0 && parent != child
    ensures parent in usr && usr[parent] == usr0[parent]
  {
  }

  /** Copies every marked page of the current process to `child`, whose pool is empty. */
  method CopyMemTo(m: Memory, parent: Frame, child: Frame, buf: VPage) returns (r: MapResult)
    requires Valid(m) && m.cr3 == parent && parent in m.pools.usrAddr && child in m.pools.usrAddr && parent != child
    requires IsBuffer(m.boot, m.ram, m.dirs, m.pools, buf)
    requires m.pools.usrAddr[child].start == m.pools.usrAddr[parent].start
    requires |m.pools.usrAddr[child].bits| == |m.pools.usrAddr[parent].bits|
    requires forall k :: 0 <= k < |m.pools.usrAddr[child].bits| ==> !m.pools.usrAddr[child].bits[k]
    requires MarkedMapped(m.ram, m.pools, parent)
    modifies m`ram, m`cr3, m`pools
    ensures var pool := old(m.pools).usrAddr[parent];
      r.Mapped? <==>
        && CountMarked(pool.bits, |pool.bits|) <= CountFree(old(m.pools).usrMem.bits)
        && |MissingTables(old(m.ram), child, pool, 0)| <= CountFree(old(m.pools).krnlMem.bits)
    ensures r.Mapped? ==>
      && Valid(m) && m.cr3 == parent
      && CopyLoop(m.boot, old(m.ram), m.ram, m.dirs, old(m.pools), m.pools, parent, child, buf,
                  |old(m.pools).usrAddr[parent].bits|)
      && IsBuffer(m.boot, m.ram, m.dirs, m.pools, buf)
      && MarkedOpen(m.ram, child, old(m.pools).usrAddr[parent], |old(m.pools).usrAddr[parent].bits|)
  {
    hide Walk, FramesOk, UserOk, KernelOk, SpacesOk, IsRam, PageAt, TableOf, IsTable, CountFree, NumberOf, FrameAt,
      PutFrame, UserSideKept, CopiedBelow, OthersKeptBut, PageStep, PageKept, IsOpen, OpensKept;
    ghost var ram0, pools0 := m.ram, m.pools;
    var start, bits := m.pools.usrAddr[parent].start, m.pools.usrAddr[parent].bits;
    UserDirs(m.boot, m.ram, m.dirs, m.pools, parent);
    UserDirs(m.boot, m.ram, m.dirs, m.pools, child);
    CopyStart(m.boot, m.ram, m.dirs, m.pools, parent, child, buf);
    var i := 0;
    while i != |bits|
      invariant i <= |bits| && Valid(m) && m.cr3 == parent
      invariant CopyLoop(m.boot, ram0, m.ram, m.dirs, pools0, m.pools, parent, child, buf, i)
      invariant IsBuffer(m.boot, m.ram, m.dirs, m.pools, buf)
      invariant MarkedOpen(m.ram, child, pools0.usrAddr[parent], i)
      decreases |bits| - i
    {
      if bits[i] {
        ghost var ram1, pools1 := m.ram, m.pools;
        CopyNext(m.boot, ram0, m.ram, m.dirs, pools0, m.pools, parent, child, buf, i);
        assert Walk(m.ram, parent, PageAt(start + i)).Some? by {
          KeptWalk(ram0, m.ram, parent, PageAt(start + i));
        }
        r := CopyPage(m, parent, child, start + i, buf);
        if !r.Mapped? {
          CopyFails(ram0, ram1, pools0, pools1, parent, child, i, r);
          return;
        }
        CopyStep(m.boot, ram0, ram1, m.ram, m.dirs, pools0, pools1, m.pools, parent, child, buf, i, r.frame);
        MarkedOpenStep(ram1, m.ram, child, pools0.usrAddr[parent], i);
      } else {
        CopySkip(m.boot, ram0, m.ram, m.dirs, pools0, m.pools, parent, child, buf, i);
      }
      i := i + 1;
    }
    NothingMissing(m.ram, child, pools0.usrAddr[parent]);
    r := Mapped(0);
  }

  lemma SlotOf(n: nat)
    requires n < FRAMES
    ensures PageAt(n).d == n / ENTRIES
  {
  }

  /** A copy stops only when the frames, or the tables, are too few for the whole of it. */
  lemma CopyFails(ram0: Ram, ram: Ram, pools0: Pools, pools: Pools, parent: Frame, child: Frame, i: nat, r: MapResult)
    requires IsRam(ram0) && IsRam(ram) && parent in pools0.usrAddr
    requires i < |pools0.usrAddr[parent].bits| && pools0.usrAddr[parent].bits[i]
    requires pools0.usrAddr[parent].start + |pools0.usrAddr[parent].bits| <= KRNL_START * ENTRIES
    requires FramesSpent(ram0, ram, pools0, pools, parent, child, i)
    requires r.NoFrame? ==> CountFree(pools.usrMem.bits) == 0
    requires r.NoTable? ==>
      CountFree(pools.krnlMem.bits) == 0 && TableOf(ram, child, PageAt(pools0.usrAddr[parent].start + i).d).None?
    ensures var pool := pools0.usrAddr[parent];
      && (r.NoFrame? ==> CountMarked(pool.bits, |pool.bits|) > CountFree(pools0.usrMem.bits))
      && (r.NoTable? ==> |MissingTables(ram0, child, pool, 0)| > CountFree(pools0.krnlMem.bits))
  {
    var pool := pools0.usrAddr[parent];
    hide IsRam, TableOf, CountFree, CountMarked;
    if r.NoFrame? {
      CountMarkedMonotone(pool.bits, i + 1, |pool.bits|);
      CountMarkedOne(pool.bits, i);
    }
    if r.NoTable? {
      SlotOf(pool.start + i);
      var d := (pool.start + i) / ENTRIES;
      hide PageAt;
      assert Wanted(pool, i, d);
      assert d in MissingTables(ram, child, pool, i);
    }
  }

  lemma CountMarkedOne(bits: Bits, i: nat)
    requires i < |bits|
    ensures CountMarked(bits, i + 1) == CountMarked(bits, i) + if bits[i] then 1 else 0
  {
  }

  lemma CopyStep(boot: Frame, ram0: Ram, ram: Ram, ram': Ram, dirs: set<Frame>, pools0: Pools, pools: Pools,
                 pools': Pools, parent: Frame, child: Frame, buf: VPage, i: nat, f: Frame)
    requires IsRam(ram0) && Inv(boot, ram, dirs, pools) && IsRam(ram') && parent != child
    requires CopyLoop(boot, ram0, ram, dirs, pools0, pools, parent, child, buf, i)
    requires parent in pools.usrAddr && parent in pools0.usrAddr && pools.usrAddr[parent] == pools0.usrAddr[parent]
    requires i < |pools0.usrAddr[parent].bits| && pools0.usrAddr[parent].bits[i]
    requires pools0.usrAddr[parent].start + |pools0.usrAddr[parent].bits| <= KRNL_START * ENTRIES
    requires PageKept(ram0, ram, parent, PageAt(pools0.usrAddr[parent].start + i))
    requires PageStep(boot, ram, ram', dirs, pools, pools', parent, child, pools0.usrAddr[parent].start + i, f)
    requires Walk(ram', boot, buf) == Walk(ram, boot, buf)
    ensures CopyLoop(boot, ram0, ram', dirs, pools0, pools', parent, child, buf, i + 1)
  {
    hide FramesOk, UserOk, KernelOk, SpacesOk, Walk, IsRam, PageAt, TableOf, FrameAt, UserSideKept, CopiedBelow,
      OthersKeptBut, FramesSpent, FramesStep, PageKept, PageStep, SameOthers, CopyLoop;
    assert IsRam(ram);
    hide Inv;
    var n := pools0.usrAddr[parent].start + i;
    assert n < FRAMES;
    PageStepParts(boot, ram, ram', dirs, pools, pools', parent, child, n, f);
    LoopParts(boot, ram0, ram, dirs, pools0, pools, parent, child, buf, i);
    SameOthersTrans(pools0.usrAddr, pools.usrAddr, pools'.usrAddr, child);
    CopiedStep(boot, ram0, ram, ram', dirs, pools0, pools, pools', parent, child, i, f);
    KeptAndSpent(boot, ram0, ram, ram', dirs, pools0, pools, pools', parent, child, i);
    LoopAgain(boot, ram0, ram, ram', dirs, pools0, pools, pools', parent, child, buf, i);
  }

  lemma LoopParts(boot: Frame, ram0: Ram, ram: Ram, dirs: set<Frame>, pools0: Pools, pools: Pools, parent: Frame,
                  child: Frame, buf: VPage, i: nat)
    requires IsRam(ram0) && IsRam(ram) && CopyLoop(boot, ram0, ram, dirs, pools0, pools, parent, child, buf, i)
    ensures child in pools.usrAddr && parent in pools0.usrAddr && i <= |pools0.usrAddr[parent].bits|
    ensures SameOthers(pools0.usrAddr, pools.usrAddr, child) && UserSideKept(boot, ram0, ram, dirs - {child})
    ensures CopiedBelow(ram0, ram, pools0, pools, parent, child, i)
    ensures FramesSpent(ram0, ram, pools0, pools, parent, child, i)
    ensures pools.krnlAddr == pools0.krnlAddr && Walk(ram, boot, buf) == Walk(ram0, boot, buf)
  {
    hide IsRam, Walk, SameOthers, UserSideKept, CopiedBelow, FramesSpent;
  }

  lemma LoopAgain(boot: Frame, ram0: Ram, ram: Ram, ram': Ram, dirs: set<Frame>, pools0: Pools, pools: Pools,
                  pools': Pools, parent: Frame, child: Frame, buf: VPage, i: nat)
    requires IsRam(ram0) && IsRam(ram) && IsRam(ram')
    requires CopyLoop(boot, ram0, ram, dirs, pools0, pools, parent, child, buf, i)
    requires i < |pools0.usrAddr[parent].bits| && child in pools'.usrAddr && pools'.krnlAddr == pools.krnlAddr
    requires SameOthers(pools0.usrAddr, pools'.usrAddr, child) && UserSideKept(boot, ram0, ram', dirs - {child})
    requires CopiedBelow(ram0, ram', pools0, pools', parent, child, i + 1)
    requires FramesSpent(ram0, ram', pools0, pools', parent, child, i + 1)
    requires Walk(ram', boot, buf) == Walk(ram, boot, buf)
    ensures CopyLoop(boot, ram0, ram', dirs, pools0, pools', parent, child, buf, i + 1)
  {
    hide IsRam, Walk, SameOthers, UserSideKept, CopiedBelow, FramesSpent;
  }

  lemma KeptAndSpent(boot: Frame, ram0: Ram, ram: Ram, ram': Ram, dirs: set<Frame>, pools0: Pools, pools: Pools,
                     pools': Pools, parent: Frame, child: Frame, i: nat)
    requires IsRam(ram0) && IsRam(ram) && IsRam(ram') && parent in pools0.usrAddr
    requires i < |pools0.usrAddr[parent].bits| && pools0.usrAddr[parent].bits[i]
    requires pools0.usrAddr[parent].start + |pools0.usrAddr[parent].bits| <= KRNL_START * ENTRIES
    requires UserSideKept(boot, ram0, ram, dirs - {child}) && FramesSpent(ram0, ram, pools0, pools, parent, child, i)
    requires var p := PageAt(pools0.usrAddr[parent].start + i);
      OthersKeptBut(boot, ram, ram', dirs, child, p) && FramesStep(ram, ram', pools, pools', child, p.d)
    ensures UserSideKept(boot, ram0, ram', dirs - {child})
    ensures FramesSpent(ram0, ram', pools0, pools', parent, child, i + 1)
  {
    hide IsRam, PageAt, UserSideKept, FramesSpent, OthersKeptBut, FramesStep;
    KeptStep(boot, ram0, ram, ram', dirs, child, PageAt(pools0.usrAddr[parent].start + i));
    SpentStep(ram0, ram, ram', pools0, pools, pools', parent, child, i);
  }

  lemma PageStepParts(boot: Frame, ram: Ram, ram': Ram, dirs: set<Frame>, pools: Pools, pools': Pools, parent: Frame,
                      child: Frame, n: nat, f: Frame)
    requires IsRam(ram) && IsRam(ram') && n < FRAMES
    requires PageStep(boot, ram, ram', dirs, pools, pools', parent, child, n, f)
    ensures SameOthers(pools.usrAddr, pools'.usrAddr, child) && pools'.krnlAddr == pools.krnlAddr
    ensures child in pools'.usrAddr
    ensures OthersKeptBut(boot, ram, ram', dirs, child, PageAt(n))
    ensures FramesStep(ram, ram', pools, pools', child, PageAt(n).d)
  {
    hide Walk, IsRam, PageAt, FrameAt, OthersKeptBut, FramesStep;
  }

  lemma SpentStep(ram0: Ram, ram: Ram, ram': Ram, pools0: Pools, pools: Pools, pools': Pools, parent: Frame,
                  child: Frame, i: nat)
    requires IsRam(ram0) && IsRam(ram) && IsRam(ram') && parent in pools0.usrAddr
    requires i < |pools0.usrAddr[parent].bits| && pools0.usrAddr[parent].bits[i]
    requires pools0.usrAddr[parent].start + |pools0.usrAddr[parent].bits| <= KRNL_START * ENTRIES
    requires FramesSpent(ram0, ram, pools0, pools, parent, child, i)
    requires FramesStep(ram, ram', pools, pools', child, PageAt(pools0.usrAddr[parent].start + i).d)
    ensures FramesSpent(ram0, ram', pools0, pools', parent, child, i + 1)
  {
    var pool := pools0.usrAddr[parent];
    SlotOf(pool.start + i);
    hide IsRam, PageAt, TableOf, CountFree, MissingTables;
    MissingStep(ram, ram', child, pool, i, true);
    CountMarkedOne(pool.bits, i);
  }

  lemma CopySkip(boot: Frame, ram0: Ram, ram: Ram, dirs: set<Frame>, pools0: Pools, pools: Pools, parent: Frame,
                 child: Frame, buf: VPage, i: nat)
    requires IsRam(ram0) && IsRam(ram) && CopyLoop(boot, ram0, ram, dirs, pools0, pools, parent, child, buf, i)
    requires var pool := pools0.usrAddr[parent];
      i < |pool.bits| && !pool.bits[i] && pool.start + |pool.bits| <= KRNL_START * ENTRIES
    ensures CopyLoop(boot, ram0, ram, dirs, pools0, pools, parent, child, buf, i + 1)
  {
    hide IsRam, Walk, SameOthers, UserSideKept, CopiedBelow, FramesSpent, CopyLoop;
    LoopParts(boot, ram0, ram, dirs, pools0, pools, parent, child, buf, i);
    SkipCopied(ram0, ram, pools0, pools, parent, child, i);
    SkipSpent(ram0, ram, pools0, pools, parent, child, i);
    LoopAgain(boot, ram0, ram, ram, dirs, pools0, pools, pools, parent, child, buf, i);
  }

  lemma SkipCopied(ram0: Ram, ram: Ram, pools0: Pools, pools: Pools, parent: Frame, child: Frame, i: nat)
    requires IsRam(ram0) && IsRam(ram) && parent in pools0.usrAddr && child in pools.usrAddr
    requires i < |pools0.usrAddr[parent].bits| && !pools0.usrAddr[parent].bits[i]
    requires CopiedBelow(ram0, ram, pools0, pools, parent, child, i)
    ensures CopiedBelow(ram0, ram, pools0, pools, parent, child, i + 1)
  {
    hide IsRam, PageCopied;
  }

  lemma SkipSpent(ram0: Ram, ram: Ram, pools0: Pools, pools: Pools, parent: Frame, child: Frame, i: nat)
    requires IsRam(ram0) && IsRam(ram) && parent in pools0.usrAddr
    requires i < |pools0.usrAddr[parent].bits| && !pools0.usrAddr[parent].bits[i]
    requires pools0.usrAddr[parent].start + |pools0.usrAddr[parent].bits| <= KRNL_START * ENTRIES
    requires FramesSpent(ram0, ram, pools0, pools, parent, child, i)
    ensures FramesSpent(ram0, ram, pools0, pools, parent, child, i + 1)
  {
    var pool := pools0.usrAddr[parent];
    MissingStep(ram, ram, child, pool, i, false);
    CountMarkedOne(pool.bits, i);
    hide IsRam, TableOf, CountFree, MissingTables, CountMarked;
  }
}
