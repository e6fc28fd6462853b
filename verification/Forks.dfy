/** Starting processes: their page directories, and `Fork`. */
module Forks {
  import opened Wrappers
  import opened Words
  import opened BitRuns
  import opened PageTables
  import opened AddressSpaces
  import opened MemoryUnit
  import opened MemoryInvariant
  import opened PageAllocation
  import opened Processes

  // Runs of pages that can be allocated one after the other.

  /** A run of `n` free slots exists. */
  ghost predicate HasFreeRun(bits: Bits, n: nat) {
    exists k :: 0 <= k && IsFreeRun(bits, k, n)
  }

  /** Taking the leftmost run of `count` slots leaves the rest of any longer run. */
  lemma FirstFitLeaves(bits: Bits, n: nat, count: nat)
    requires 0 < count <= n && HasFreeRun(bits, n)
    ensures var k := FindRun(bits, count);
      k.Some? && IsFreeRun(bits, k.value, count) && HasFreeRun(Mark(bits, k.value, count, true), n - count)
  {
    var s :| 0 <= s && IsFreeRun(bits, s, n);
    var k := FindRun(bits, count);
    FindRunCharacterised(bits, count, k);
    assert IsFreeRun(bits, s, count);
    var after := Mark(bits, k.value, count, true);
    assert k.value <= s;
    assert IsFreeRun(after, s + count, n - count);
  }

  // Kernel pages.

  /** The frame of page `n`, which is mapped. */
  function PageFrame(ram: Ram, cr3: Frame, n: nat): Frame
    requires IsRam(ram) && n < FRAMES && Walk(ram, cr3, PageAt(n)).Some?
  {
    Walk(ram, cr3, PageAt(n)).value
  }

  /** `count` zeroed kernel pages from page `b` on have been allocated; user space is as before. */
  ghost predicate KernelRunTaken(boot: Frame, ram: Ram, ram': Ram, dirs: set<Frame>, pools: Pools, pools': Pools,
                                 cr3: Frame, b: nat, count: nat)
    requires IsRam(ram) && IsRam(ram')
  {
    && pools.krnlAddr.start <= b && FindRun(pools.krnlAddr.bits, count) == Some(b - pools.krnlAddr.start)
    && b - pools.krnlAddr.start + count <= |pools.krnlAddr.bits|
    && pools'.krnlAddr == Pool(pools.krnlAddr.start, Mark(pools.krnlAddr.bits, b - pools.krnlAddr.start, count, true))
    && pools'.usrMem == pools.usrMem && pools'.usrAddr == pools.usrAddr
    && CountFree(pools'.krnlMem.bits) + count == CountFree(pools.krnlMem.bits)
    && UserSideKept(boot, ram, ram', dirs) && SameTables(ram, ram', dirs)
    && (forall j :: b <= j < b + count ==> KernelPage(ram', dirs, pools', cr3, j))
  }

  /** Page `j` is an allocated kernel page that holds zeros, and its frame is no directory and no table. */
  ghost predicate KernelPage(ram: Ram, dirs: set<Frame>, pools: Pools, cr3: Frame, j: nat)
    requires IsRam(ram)
  {
    && j < FRAMES && PageAt(j).d < SELF_REF && pools.krnlAddr.IsUsed(j) && Walk(ram, cr3, PageAt(j)).Some?
    && var f := PageFrame(ram, cr3, j);
      pools.krnlMem.IsUsed(f) && f !in dirs && !IsTable(ram, dirs, f) && FrameAt(ram, f) == ZeroPage()
  }

  /** Zeroed kernel pages, or `None` when they cannot be had. */
  method AllocKernelPages(m: Memory, count: nat) returns (r: Option<nat>)
    requires Valid(m) && count > 0
    modifies m`ram, m`pools
    ensures Valid(m)
    ensures r.Some? ==> KernelRunTaken(m.boot, old(m.ram), m.ram, m.dirs, old(m.pools), m.pools, m.cr3, r.value, count)
    ensures r.None? ==> FindRun(old(m.pools).krnlAddr.bits, count).None? || CountFree(old(m.pools).krnlMem.bits) < count
  {
    hide Walk, FramesOk, UserOk, KernelOk, SpacesOk, IsRam, PageAt, TableOf, OffRunSame, IsTable, CountFree, RunHas,
      FindRun, SameTables, FrameAt, UserSideKept, KernelPage, ZeroRun, Mark, Restored, OthersKept, AllocFrames,
      RunBacked, UsedDataKept;
    ghost var ram0, pools0 := m.ram, m.pools;
    var pages := AllocPages(m, Kernel, count);
    if !pages.Pages? {
      return None;
    }
    KernelRunFacts(m.boot, ram0, m.ram, m.dirs, pools0, m.pools, m.cr3, pages.base, count);
    r := Some(pages.base);
  }

  lemma KernelRunFacts(boot: Frame, ram: Ram, ram': Ram, dirs: set<Frame>, pools: Pools, pools': Pools, cr3: Frame,
                       b: nat, count: nat)
    requires Inv(boot, ram, dirs, pools) && Inv(boot, ram', dirs, pools') && cr3 in dirs
    requires RunBacked(boot, ram, ram', dirs, pools'.krnlAddr, pools.krnlMem, cr3, b, count, count)
    requires UsedDataKept(ram, ram', dirs, pools.krnlMem)
    requires AllocFrames(ram', pools.krnlMem, pools'.krnlMem, cr3, b, count)
    requires ZeroRun(ram', cr3, b, count) && OthersKept(pools, pools', Kernel, cr3)
    ensures UserSideKept(boot, ram, ram', dirs)
    ensures forall j :: b <= j < b + count ==> KernelPage(ram', dirs, pools', cr3, j)
    ensures pools'.usrMem == pools.usrMem && pools'.usrAddr == pools.usrAddr
    ensures CountFree(pools'.krnlMem.bits) + count == CountFree(pools.krnlMem.bits)
  {
    KernelPagesKeepUser(boot, ram, ram', dirs, pools, pools', cr3, b, count);
    FreshFrames(boot, dirs, pools, ram, Kernel);
    hide Walk, FramesOk, UserOk, KernelOk, SpacesOk, IsRam, PageAt, TableOf, OffRunSame, IsTable, CountFree, RunHas,
      UserSideKept, FrameAt;
    forall j | b <= j < b + count ensures KernelPage(ram', dirs, pools', cr3, j) {
      assert pools'.krnlAddr.IsUsed(j);
      PoolPages(boot, ram', dirs, pools', Kernel, cr3, j);
      PoolFrame(boot, ram', dirs, pools', Kernel, cr3, j);
    }
  }

  /** A kernel page allocated in one space is there, in the same frame, in every space. */
  lemma KernelPageEverywhere(boot: Frame, ram: Ram, dirs: set<Frame>, pools: Pools, cr3: Frame, dir: Frame, j: nat)
    requires Inv(boot, ram, dirs, pools) && cr3 in dirs && dir in dirs && KernelPage(ram, dirs, pools, cr3, j)
    ensures Walk(ram, dir, PageAt(j)) == Walk(ram, cr3, PageAt(j)) && KernelPage(ram, dirs, pools, dir, j)
  {
    PoolPages(boot, ram, dirs, pools, Kernel, cr3, j);
    KernelPagesShared(boot, ram, dirs, dir, cr3, PageAt(j));
  }

  // A new process.

  /**
   The page directory of a new process: a zeroed page, with the kernel half of the current
   directory, which is read through its self-referencing page, and a reference to itself.
   */
  method InitPageDir(m: Memory) returns (r: Option<Frame>)
    requires Valid(m)
    modifies m`ram, m`pools, m`dirs
    ensures Valid(m)
    ensures r.None? ==> FindRun(old(m.pools).krnlAddr.bits, 1).None? || CountFree(old(m.pools).krnlMem.bits) < 1
    ensures r.Some? ==> NewProcess(m.boot, old(m.ram), m.ram, old(m.dirs), m.dirs, old(m.pools), m.pools, r.value)
    ensures r.Some? ==> DirectoryStored(m.ram, m.cr3, r.value)
  {
    hide Walk, FramesOk, UserOk, KernelOk, SpacesOk, IsRam, PageAt, TableOf, IsTable, CountFree, FindRun, SameTables,
      UserSideKept, Mark, FrameAt, PutFrame, NumberOf;
    ghost var ram0, pools0 := m.ram, m.pools;
    var b := AllocKernelPages(m, 1);
    if b.None? {
      return None;
    }
    assert KernelPage(m.ram, m.dirs, m.pools, m.cr3, b.value);
    ghost var ram1, pools1 := m.ram, m.pools;
    var f := PageFrame(m.ram, m.cr3, b.value);
    var page := FrameAt(m.ram, f)[..KRNL_START] + FrameAt(m.ram, m.cr3)[KRNL_START..SELF_REF] + [Mapping(0, f)];
    assert page == NewDirectory(FrameAt(m.ram, m.cr3), f);
    NewDirKeepsInv(m.boot, m.ram, m.dirs, m.pools, m.cr3, f);
    DirectoryWritten(m.ram, m.cr3, f);
    m.ram := PutFrame(m.ram, f, page);
    m.pools := m.pools.(usrAddr := m.pools.usrAddr[f := EmptyUserPool()]);
    ghost var dirs0 := m.dirs;
    m.dirs := m.dirs + {f};
    UserSideKeptTrans(m.boot, ram0, ram1, m.ram, dirs0, dirs0);
    r := Some(f);
  }

  /**
   The words of a new directory: no user table, the kernel half of the current directory, and a
   present, writable self-reference that is open to user code.
   */
  ghost predicate DirectoryStored(ram: Ram, cr3: Frame, dir: Frame)
    requires IsRam(ram)
  {
    && (forall k :: 0 <= k < 768 ==> ram[dir][k] == 0)
    && (forall k :: 768 <= k < 1023 ==> ram[dir][k] == ram[cr3][k])
    && ram[dir][1023] == dir * 4096 + 7
  }

  lemma DirectoryWritten(ram: Ram, cr3: Frame, dir: Frame)
    requires IsRam(ram) && dir != cr3
    ensures DirectoryStored(PutFrame(ram, dir, NewDirectory(FrameAt(ram, cr3), dir)), cr3, dir)
  {
    FreshMapping(dir);
    hide Mapping;
  }

  /** A process with an empty user space has been added; the other user spaces are as before. */
  ghost predicate NewProcess(boot: Frame, ram: Ram, ram': Ram, dirs: set<Frame>, dirs': set<Frame>, pools: Pools,
                             pools': Pools, dir: Frame)
    requires IsRam(ram) && IsRam(ram')
  {
    && dir !in dirs && dirs' == dirs + {dir}
    && pools'.usrAddr == pools.usrAddr[dir := EmptyUserPool()] && pools'.usrMem == pools.usrMem
    && (var k := FindRun(pools.krnlAddr.bits, 1);
      && k.Some? && k.value < |pools.krnlAddr.bits|
      && pools'.krnlAddr == Pool(pools.krnlAddr.start, Mark(pools.krnlAddr.bits, k.value, 1, true)))
    && CountFree(pools'.krnlMem.bits) + 1 == CountFree(pools.krnlMem.bits)
    && UserSideKept(boot, ram, ram', dirs)
    && (forall d :: 0 <= d < KRNL_START ==> TableOf(ram', dir, d).None?)
  }

  // Fork.

  /** The kernel pages that a child needs for good: its process and thread objects, its bitmap and its directory. */
  const CHILD_PAGES := 1 + BITMAP_PAGES + 1 + 1

  /** The kernel has `n` frames, and addresses in a row for them. */
  ghost predicate KernelHas(pools: Pools, n: nat) {
    HasFreeRun(pools.krnlAddr.bits, n) && CountFree(pools.krnlMem.bits) >= n
  }

  lemma KernelHasLess(pools: Pools, pools': Pools, n: nat, count: nat)
    requires KernelHas(pools, n) && 0 < count <= n
    ensures FindRun(pools.krnlAddr.bits, count).Some? && CountFree(pools.krnlMem.bits) >= count
    ensures var k := FindRun(pools.krnlAddr.bits, count).value;
      && k + count <= |pools.krnlAddr.bits|
      && (pools'.krnlAddr.bits == Mark(pools.krnlAddr.bits, k, count, true)
          && CountFree(pools'.krnlMem.bits) + count == CountFree(pools.krnlMem.bits)
          ==> KernelHas(pools', n - count))
  {
    hide Mark, CountFree;
    FirstFitLeaves(pools.krnlAddr.bits, n, count);
  }

  /** The child before its memory is copied, and the page of the copy buffer. */
  datatype Child = Child(dir: Frame, buf: nat)

  ghost predicate ChildStarted(boot: Frame, ram: Ram, ram': Ram, dirs: set<Frame>, dirs': set<Frame>,
                               pools: Pools, pools': Pools, cr3: Frame, c: Child)
    requires IsRam(ram) && IsRam(ram')
  {
    && c.dir !in dirs && dirs' == dirs + {c.dir}
    && pools'.usrAddr == pools.usrAddr[c.dir := EmptyUserPool()] && pools'.usrMem == pools.usrMem
    && CountFree(pools'.krnlMem.bits) + CHILD_PAGES + 1 == CountFree(pools.krnlMem.bits)
    && UserSideKept(boot, ram, ram', dirs)
    && (forall d :: 0 <= d < KRNL_START ==> TableOf(ram', c.dir, d).None?)
    && KernelPage(ram', dirs', pools', cr3, c.buf)
  }

  /** Allocates all that `Fork` needs before it copies the memory. */
  method StartChild(m: Memory) returns (r: Option<Child>)
    requires Valid(m)
    modifies m`ram, m`pools, m`dirs
    ensures IsRam(m.ram)
    ensures r.None? ==> !KernelHas(old(m.pools), CHILD_PAGES + 1)
    ensures r.Some? ==> Valid(m)
    ensures r.Some? ==>
      ChildStarted(m.boot, old(m.ram), m.ram, old(m.dirs), m.dirs, old(m.pools), m.pools, m.cr3, r.value)
  {
    hide Walk, FramesOk, UserOk, KernelOk, SpacesOk, IsRam, PageAt, TableOf, IsTable, CountFree, FindRun, UserSideKept,
      Mark, FrameAt, PutFrame, NumberOf, KernelPage, HasFreeRun, EmptyUserPool;
    ghost var ram0, pools0, dirs0 := m.ram, m.pools, m.dirs;
    ghost var enough := KernelHas(pools0, CHILD_PAGES + 1);
    hide KernelHas;
    r := None;

    // The process object and the bitmap of its address pool.
    if enough {
      KernelHasLess(pools0, pools0, CHILD_PAGES + 1, 1);
    }
    var proc := AllocKernelPages(m, 1);
    if proc.None? {
      return;
    }
    ghost var ram1, pools1 := m.ram, m.pools;
    if enough {
      KernelHasLess(pools0, pools1, CHILD_PAGES + 1, 1);
      KernelHasLess(pools1, pools1, CHILD_PAGES, BITMAP_PAGES);
    }
    var bits := AllocKernelPages(m, BITMAP_PAGES);
    if bits.None? {
      return;
    }
    ghost var ram2, pools2 := m.ram, m.pools;
    if enough {
      KernelHasLess(pools1, pools2, CHILD_PAGES, BITMAP_PAGES);
      KernelHasLess(pools2, pools2, 3, 1);
    }

    // The page directory.
    var dir := InitPageDir(m);
    if dir.None? {
      return;
    }
    ghost var ram3, pools3, dirs3 := m.ram, m.pools, m.dirs;
    if enough {
      KernelHasLess(pools2, pools3, 3, 1);
      KernelHasLess(pools3, pools3, 2, 1);
    }

    // The thread object and the copy buffer.
    var thd := AllocKernelPages(m, 1);
    if thd.None? {
      return;
    }
    ghost var ram4, pools4 := m.ram, m.pools;
    if enough {
      KernelHasLess(pools3, pools4, 2, 1);
      KernelHasLess(pools4, pools4, 1, 1);
    }
    var buf := AllocKernelPages(m, 1);
    if buf.None? {
      return;
    }
    r := Some(Child(dir.value, buf.value));
    UserSideKeptTrans(m.boot, ram0, ram1, ram2, dirs0, dirs0);
    UserSideKeptTrans(m.boot, ram0, ram2, ram3, dirs0, dirs0);
    UserSideKeptTrans(m.boot, ram0, ram3, ram4, dirs0, dirs3);
    UserSideKeptTrans(m.boot, ram0, ram4, m.ram, dirs0, dirs3);
  }

  /** Every process's address pool has this place and size. */
  ghost predicate IsProcess(pools: Pools, dir: Frame) {
    dir in pools.usrAddr && pools.usrAddr[dir].start == IMAGE_PAGE && |pools.usrAddr[dir].bits| == USER_PAGES
  }

  /** The directory slots that a pool's marked pages lie in: one page table for each. */
  ghost function TablesFor(pool: Pool): set<nat> {
    set d | 0 <= d < KRNL_START && Wanted(pool, 0, d)
  }

  /** Enough kernel addresses and frames to copy the process `parent`. */
  ghost predicate EnoughToFork(pools: Pools, parent: Frame)
    requires parent in pools.usrAddr
  {
    var pool := pools.usrAddr[parent];
    && KernelHas(pools, CHILD_PAGES + 1)
    && CountFree(pools.krnlMem.bits) >= CHILD_PAGES + 1 + |TablesFor(pool)|
    && CountFree(pools.usrMem.bits) >= CountMarked(pool.bits, |pool.bits|)
  }

  /** Every marked page of the pool has been copied. */
  ghost predicate PagesCopied(ram: Ram, ram': Ram, pool: Pool, parent: Frame, child: Frame)
    requires IsRam(ram) && IsRam(ram')
  {
    forall k :: 0 <= k < |pool.bits| && pool.bits[k] && pool.start + k < FRAMES ==>
      PageCopied(ram, ram', parent, child, pool.start + k)
  }

  /** `child` has a copy of all memory of `parent`, in frames of its own; nothing else in user space has changed. */
  ghost predicate Forked(boot: Frame, ram: Ram, ram': Ram, dirs: set<Frame>, dirs': set<Frame>,
                         pools: Pools, pools': Pools, parent: Frame, child: Frame)
    requires IsRam(ram) && IsRam(ram') && parent in pools.usrAddr
  {
    var pool := pools.usrAddr[parent];
    && child !in dirs && dirs' == dirs + {child}
    && pools'.usrAddr == pools.usrAddr[child := pool]
    && PagesCopied(ram, ram', pool, parent, child)
    && UserSideKept(boot, ram, ram', dirs)
    && NothingShared(boot, ram', parent, child)
    && CountFree(pools'.usrMem.bits) + CountMarked(pool.bits, |pool.bits|) == CountFree(pools.usrMem.bits)
    && CountFree(pools'.krnlMem.bits) + CHILD_PAGES + |TablesFor(pool)| == CountFree(pools.krnlMem.bits)
  }

  /** No frame belongs to user pages of both processes. */
  ghost predicate NothingShared(boot: Frame, ram: Ram, parent: Frame, child: Frame)
    requires IsRam(ram)
  {
    forall p: VPage, q: VPage ::
      IsUserPage(boot, parent, p) && IsUserPage(boot, child, q) && Walk(ram, parent, p).Some? ==>
        Walk(ram, child, q) != Walk(ram, parent, p)
  }

  /** Freeing kernel pages does not show in user space. */
  lemma FreeKernelKeepsUser(boot: Frame, ram: Ram, ram': Ram, dirs: set<Frame>, pools: Pools, cr3: Frame, b: nat,
                            count: nat)
    requires Inv(boot, ram, dirs, pools) && IsRam(ram') && cr3 in dirs
    requires forall j :: b <= j < b + count ==> pools.krnlAddr.IsUsed(j)
    requires OffRunSame(boot, ram, ram', dirs, cr3, b, count) && SameTables(ram, ram', dirs)
    requires DataKept(ram, ram', dirs)
    ensures UserSideKept(boot, ram, ram', dirs)
  {
    SameTablesSameFrames(ram, ram', dirs);
    hide Walk, SpacesOk, IsRam, TableOf, SamePage, PageAt, NumberOf, UserOk, KernelOk, FramesOk, FrameAt, IsTable,
      SameTables;
    forall dir, p: VPage | dir in dirs && IsUserPage(boot, dir, p) ensures PageKept(ram, ram', dir, p) {
      forall j | b <= j < b + count && j < FRAMES ensures !SamePage(boot, dir, p, cr3, PageAt(j)) {
        assert pools.krnlAddr.IsUsed(j);
        PoolPages(boot, ram, dirs, pools, Kernel, cr3, j);
        SameKernelPage(boot, dir, p, cr3, PageAt(j));
      }
      assert !OnRun(boot, dir, p, cr3, b, count);
      if Walk(ram, dir, p).Some? {
        UserFrame(boot, ram, dirs, pools, dir, p);
      }
    }
  }

  /** What the copying loop leaves, before the buffer is freed. */
  lemma CopyIsWhole(boot: Frame, ram1: Ram, ram2: Ram, dirs: set<Frame>, pools1: Pools, pools2: Pools, parent: Frame,
                    child: Frame, buf: VPage)
    requires IsRam(ram1) && IsRam(ram2) && parent != child && parent in pools1.usrAddr && child in pools1.usrAddr
    requires CopyLoop(boot, ram1, ram2, dirs, pools1, pools2, parent, child, buf, |pools1.usrAddr[parent].bits|)
    requires forall d :: 0 <= d < KRNL_START ==> TableOf(ram1, child, d).None?
    ensures var pool := pools1.usrAddr[parent];
      && pools2.usrAddr == pools1.usrAddr[child := pool]
      && PagesCopied(ram1, ram2, pool, parent, child)
      && UserSideKept(boot, ram1, ram2, dirs - {child})
      && CountFree(pools2.usrMem.bits) + CountMarked(pool.bits, |pool.bits|) == CountFree(pools1.usrMem.bits)
      && CountFree(pools2.krnlMem.bits) + |TablesFor(pool)| == CountFree(pools1.krnlMem.bits)
  {
    var pool := pools1.usrAddr[parent];
    NothingMissing(ram2, child, pool);
    AllMissing(ram1, child, pool);
    hide Walk, IsRam, PageAt, TableOf, CountFree, UserSideKept, CountMarked, MissingTables, TablesFor, PageCopied;
    assert pools2.usrAddr[child] == pool;
    SameButOne(pools1.usrAddr, pools2.usrAddr, child);
  }

  lemma SameButOne(usr: map<Frame, Pool>, usr': map<Frame, Pool>, child: Frame)
    requires child in usr' && SameOthers(usr, usr', child)
    ensures usr' == usr[child := usr'[child]]
  {
  }

  lemma AllMissing(ram: Ram, child: Frame, pool: Pool)
    requires IsRam(ram) && forall d :: 0 <= d < KRNL_START ==> TableOf(ram, child, d).None?
    ensures MissingTables(ram, child, pool, 0) == TablesFor(pool)
  {
  }

  /** A page copied between two states is copied between earlier and later states that keep both pages. */
  lemma CopiedThrough(ram0: Ram, ram1: Ram, ram2: Ram, ram3: Ram, parent: Frame, child: Frame, n: nat)
    requires IsRam(ram0) && IsRam(ram1) && IsRam(ram2) && IsRam(ram3) && n < FRAMES
    requires PageKept(ram0, ram1, parent, PageAt(n)) && PageCopied(ram1, ram2, parent, child, n)
    requires PageKept(ram2, ram3, child, PageAt(n))
    ensures PageCopied(ram0, ram3, parent, child, n)
  {
    hide Walk, IsRam, FrameAt, PageAt;
  }

  /** The pages copied between the second and the third of four memories show in the first and the last. */
  lemma ForkedPages(boot: Frame, ram0: Ram, ram1: Ram, ram2: Ram, ram3: Ram, dirs0: set<Frame>, dirs: set<Frame>,
                    pools0: Pools, pools3: Pools, parent: Frame, child: Frame)
    requires Inv(boot, ram0, dirs0, pools0) && IsRam(ram1) && IsRam(ram2) && Inv(boot, ram3, dirs, pools3)
    requires parent in pools0.usrAddr && child in pools3.usrAddr && pools3.usrAddr[child] == pools0.usrAddr[parent]
    requires UserSideKept(boot, ram0, ram1, dirs0) && UserSideKept(boot, ram2, ram3, dirs)
    requires PagesCopied(ram1, ram2, pools0.usrAddr[parent], parent, child)
    ensures PagesCopied(ram0, ram3, pools0.usrAddr[parent], parent, child)
  {
    hide FramesOk, UserOk, KernelOk, SpacesOk, Walk, IsRam, PageAt, TableOf, PageCopied, UserSideKept;
    var pool := pools0.usrAddr[parent];
    assert IsRam(ram0) && IsRam(ram3);
    hide Inv;
    forall k | 0 <= k < |pool.bits| && pool.bits[k] && pool.start + k < FRAMES
      ensures PageCopied(ram0, ram3, parent, child, pool.start + k)
    {
      ForkedPage(boot, ram0, ram1, ram2, ram3, dirs0, dirs, pools0, pools3, parent, child, pool.start + k);
    }
  }

  lemma ForkedPage(boot: Frame, ram0: Ram, ram1: Ram, ram2: Ram, ram3: Ram, dirs0: set<Frame>, dirs: set<Frame>,
                   pools0: Pools, pools3: Pools, parent: Frame, child: Frame, n: nat)
    requires Inv(boot, ram0, dirs0, pools0) && IsRam(ram1) && IsRam(ram2) && Inv(boot, ram3, dirs, pools3)
    requires parent in pools0.usrAddr && child in pools3.usrAddr && pools0.usrAddr[parent].Has(n)
    requires pools3.usrAddr[child].Has(n) && n < FRAMES
    requires UserSideKept(boot, ram0, ram1, dirs0) && UserSideKept(boot, ram2, ram3, dirs)
    requires PageCopied(ram1, ram2, parent, child, n)
    ensures PageCopied(ram0, ram3, parent, child, n)
  {
    hide Walk, FramesOk, UserOk, KernelOk, SpacesOk, IsRam, PageAt, UserSideKept, PageKept, PageCopied;
    PoolPageKept(boot, ram0, dirs0, pools0, parent, n, ram0, ram1, dirs0);
    PoolPageKept(boot, ram3, dirs, pools3, child, n, ram2, ram3, dirs);
    CopiedThrough(ram0, ram1, ram2, ram3, parent, child, n);
  }

  /** Different processes have different frames. */
  lemma SeparateFrames(boot: Frame, ram: Ram, dirs: set<Frame>, pools: Pools, parent: Frame, child: Frame)
    requires Inv(boot, ram, dirs, pools) && parent in dirs && child in dirs && parent != child
    ensures NothingShared(boot, ram, parent, child)
  {
    hide Walk, FramesOk, KernelOk, SpacesOk, IsRam, NumberOf;
  }

  /** The page of the copy buffer. */
  lemma BufferPage(boot: Frame, ram: Ram, dirs: set<Frame>, pools: Pools, cr3: Frame, b: nat)
    requires Inv(boot, ram, dirs, pools) && cr3 in dirs && KernelPage(ram, dirs, pools, cr3, b)
    ensures b < FRAMES && IsBuffer(boot, ram, dirs, pools, PageAt(b))
  {
    PoolPages(boot, ram, dirs, pools, Kernel, cr3, b);
    BootIn(boot, ram, dirs);
    KernelPagesShared(boot, ram, dirs, cr3, boot, PageAt(b));
  }

  lemma BufferMapped(boot: Frame, ram: Ram, dirs: set<Frame>, pools: Pools, cr3: Frame, b: nat)
    requires Inv(boot, ram, dirs, pools) && cr3 in dirs && b < FRAMES && IsBuffer(boot, ram, dirs, pools, PageAt(b))
    ensures MappedRun(ram, dirs, pools.krnlAddr, Kernel, cr3, b, 1) && pools.krnlAddr.IsUsed(b)
  {
    BufferFrame(boot, ram, dirs, pools, cr3, PageAt(b));
    PageNumbers(b, PageAt(b));
    hide Walk, FramesOk, UserOk, KernelOk, SpacesOk, IsRam;
    assert MappedPage(ram, dirs, pools.krnlAddr, Kernel, cr3, b);
  }

  lemma MarkedStillMapped(boot: Frame, ram: Ram, ram': Ram, dirs: set<Frame>, pools: Pools, pools': Pools, dir: Frame)
    requires Inv(boot, ram, dirs, pools) && IsRam(ram') && UserSideKept(boot, ram, ram', dirs)
    requires dir in pools.usrAddr && dir in pools'.usrAddr && pools'.usrAddr[dir] == pools.usrAddr[dir]
    requires MarkedMapped(ram, pools, dir)
    ensures MarkedMapped(ram', pools', dir)
  {
    hide Walk, FramesOk, UserOk, KernelOk, SpacesOk, IsRam, PageAt, UserSideKept;
    forall n: nat | pools'.usrAddr[dir].IsUsed(n) ensures n < FRAMES && Walk(ram', dir, PageAt(n)).Some? {
      assert pools.usrAddr[dir].IsUsed(n);
      MarkedStillMappedAt(boot, ram, ram', dirs, pools, dir, n);
    }
  }

  lemma MarkedStillMappedAt(boot: Frame, ram: Ram, ram': Ram, dirs: set<Frame>, pools: Pools, dir: Frame, n: nat)
    requires Inv(boot, ram, dirs, pools) && IsRam(ram') && UserSideKept(boot, ram, ram', dirs)
    requires dir in pools.usrAddr && pools.usrAddr[dir].Has(n) && n < FRAMES && Walk(ram, dir, PageAt(n)).Some?
    ensures Walk(ram', dir, PageAt(n)).Some?
  {
    hide Walk, FramesOk, UserOk, KernelOk, SpacesOk, IsRam, PageAt, UserSideKept, PageKept;
    PoolPageKept(boot, ram, dirs, pools, dir, n, ram, ram', dirs);
    KeptWalk(ram, ram', dir, PageAt(n));
  }

  /** Every process's marked pages stay mapped, and those of the child are. */
  lemma ForkedMarks(boot: Frame, ram: Ram, ram': Ram, dirs: set<Frame>, dirs': set<Frame>, pools: Pools, pools': Pools,
                    parent: Frame, child: Frame)
    requires Inv(boot, ram, dirs, pools) && IsRam(ram') && parent in pools.usrAddr && MarkedMapped(ram, pools, parent)
    requires Forked(boot, ram, ram', dirs, dirs', pools, pools', parent, child)
    ensures MarksKept(ram, ram', pools, pools', {}) && MarkedMapped(ram', pools', child)
  {
    hide Walk, FramesOk, KernelOk, SpacesOk, IsRam, PageAt, UserSideKept, NothingShared, CountFree, CountMarked,
      TablesFor;
    forall dir | dir in pools.usrAddr && MarkedMapped(ram, pools, dir)
      ensures dir in pools'.usrAddr && MarkedMapped(ram', pools', dir)
    {
      MarkedStillMapped(boot, ram, ram', dirs, pools, pools', dir);
    }
    hide UserOk;
    forall n: nat | pools'.usrAddr[child].IsUsed(n) ensures n < FRAMES && Walk(ram', child, PageAt(n)).Some? {
      assert pools.usrAddr[parent].IsUsed(n);
      assert pools.usrAddr[parent].bits[n - pools.usrAddr[parent].start];
    }
  }

  /** Creates a child process with a copy of the current process's memory; `None` means that the kernel stopped. */
  method Fork(m: Memory) returns (r: Option<Frame>)
    requires Valid(m) && IsProcess(m.pools, m.cr3) && MarkedMapped(m.ram, m.pools, m.cr3)
    modifies m`ram, m`cr3, m`pools, m`dirs
    ensures r.None? ==> !EnoughToFork(old(m.pools), old(m.cr3))
    ensures r.Some? ==> Valid(m) && m.cr3 == old(m.cr3)
    ensures r.Some? ==> Forked(m.boot, old(m.ram), m.ram, old(m.dirs), m.dirs, old(m.pools), m.pools, m.cr3, r.value)
    ensures r.Some? ==> MarksKept(old(m.ram), m.ram, old(m.pools), m.pools, {}) && MarkedMapped(m.ram, m.pools, r.value)
  {
    hide Walk, FramesOk, UserOk, KernelOk, SpacesOk, IsRam, PageAt, TableOf, IsTable, CountFree, CountMarked,
      UserSideKept, Mark, FrameAt, PagesCopied, NumberOf, KernelPage, KernelHas, TablesFor, PageCopied, NothingShared,
      OffRunSame, SameTables, DataKept, MappedRun, RunHas, MarkedMapped, MarksKept;
    ghost var ram0, pools0, dirs0 := m.ram, m.pools, m.dirs;
    var parent := m.cr3;
    var c := StartChild(m);
    if c.None? {
      return None;
    }
    var child, b := c.value.dir, c.value.buf;
    ghost var ram1, pools1 := m.ram, m.pools;
    BufferPage(m.boot, m.ram, m.dirs, m.pools, m.cr3, b);
    MarkedStillMapped(m.boot, ram0, m.ram, dirs0, pools0, m.pools, parent);
    AllMissing(m.ram, child, pools0.usrAddr[parent]);
    var copied := CopyMemTo(m, parent, child, PageAt(b));
    if !copied.Mapped? {
      return None;
    }
    ghost var ram2, pools2 := m.ram, m.pools;
    CopyIsWhole(m.boot, ram1, ram2, m.dirs, pools1, pools2, parent, child, PageAt(b));
    BufferMapped(m.boot, m.ram, m.dirs, m.pools, m.cr3, b);
    FreePages(m, Kernel, b, 1);
    FreeKernelKeepsUser(m.boot, ram2, m.ram, m.dirs, pools2, m.cr3, b, 1);
    ForkedPages(m.boot, ram0, ram1, ram2, m.ram, dirs0, m.dirs, pools0, m.pools, parent, child);
    assert m.dirs - {child} == dirs0;
    UserSideKeptTrans(m.boot, ram0, ram1, ram2, dirs0, dirs0);
    UserSideKeptTrans(m.boot, ram0, ram2, m.ram, dirs0, m.dirs);
    UserDirs(m.boot, ram0, dirs0, pools0, parent);
    SeparateFrames(m.boot, m.ram, m.dirs, m.pools, parent, child);
    ForkedMarks(m.boot, ram0, m.ram, dirs0, m.dirs, pools0, m.pools, parent, child);
    r := Some(child);
  }
}
