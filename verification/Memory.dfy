/** Mapping and unmapping pages by editing page tables through the self-referencing entry. */
module MemoryUnit {
  import opened Wrappers
  import opened Words
  import opened BitRuns
  import opened PageTables
  import opened AddressSpaces

  /** A page pool: slot `k` of `bits` stands for page or frame `start + k`. */
  datatype Pool = Pool(start: nat, bits: Bits) {
    predicate Has(x: int) {
      start <= x < start + |bits|
    }

    predicate HasRun(x: nat, count: nat) {
      start <= x && x - start + count <= |bits|
    }

    predicate IsFree(x: int) {
      Has(x) && !bits[x - start]
    }

    predicate IsUsed(x: int) {
      Has(x) && bits[x - start]
    }

    function With(x: int, val: bool): (r: Pool)
      requires Has(x)
      ensures r.start == start && |r.bits| == |bits|
      ensures forall y :: Has(y) ==> (r.IsUsed(y) <==> if y == x then val else IsUsed(y))
      ensures forall y :: Has(y) <==> r.Has(y)
    {
      Pool(start, bits[x - start := val])
    }
  }

  lemma WithCount(pool: Pool, x: int, val: bool)
    requires pool.Has(x) && pool.bits[x - pool.start] == !val
    ensures CountFree(pool.With(x, val).bits) == CountFree(pool.bits) + (if val then -1 else 1)
  {
    CountFreeMark(pool.bits, x - pool.start, 1, val);
    assert Mark(pool.bits, x - pool.start, 1, val) == pool.bits[x - pool.start := val];
  }

  datatype PoolType = Kernel | User

  /** The physical pools, the kernel's address pool, and the address pool of each process. */
  datatype Pools = Pools(krnlMem: Pool, usrMem: Pool, krnlAddr: Pool, usrAddr: map<Frame, Pool>)

  /** What mapping page `p` to frame `f` does to memory and the pools, with a new table where there is none. */
  ghost predicate MapEffect(ram: Ram, ram': Ram, dirs: set<Frame>, pools: Pools, pools': Pools, cr3: Frame, p: VPage,
                            f: Frame)
    requires IsRam(ram) && IsRam(ram')
  {
    if TableOf(ram, cr3, p.d).Some? then pools' == pools && ram' == WithPage(ram, cr3, p, f)
    else exists tab: Frame :: NewTableEffect(ram, ram', dirs, pools, pools', cr3, p, f, tab)
  }

  ghost predicate NewTableEffect(ram: Ram, ram': Ram, dirs: set<Frame>, pools: Pools, pools': Pools, cr3: Frame,
                                 p: VPage, f: Frame, tab: Frame)
    requires IsRam(ram) && IsRam(ram')
  {
    && tab !in dirs && !IsTable(ram, dirs, tab) && pools.krnlMem.IsFree(tab) && tab != cr3
    && pools' == pools.(krnlMem := pools.krnlMem.With(tab, true))
    && CountFree(pools'.krnlMem.bits) == CountFree(pools.krnlMem.bits) - 1
    && TableOf(WithTable(ram, cr3, p.d, tab), cr3, p.d) == Some(tab)
    && ram' == WithPage(WithTable(ram, cr3, p.d, tab), cr3, p, f)
  }

  /** The processor's view of memory, with the pools that hand out pages of it. */
  class Memory {
    const boot: Frame
    var ram: Ram
    var cr3: Frame
    var pools: Pools
    /** The page directories of all processes, and the boot directory. */
    ghost var dirs: set<Frame>

    /** The boot directory is the only one at first. */
    constructor (boot: Frame, ram: Ram, pools: Pools)
      ensures this.boot == boot && this.ram == ram && cr3 == boot && this.pools == pools && dirs == {boot}
    {
      this.boot, this.ram, this.cr3, this.pools, this.dirs := boot, ram, boot, pools, {boot};
    }

    /** The page tables are in order, and free kernel frames hold none of them. */
    ghost predicate TablesOk()
      reads this
    {
      && IsRam(ram) && SpacesOk(boot, ram, dirs) && cr3 in dirs
      && pools.krnlMem.start + |pools.krnlMem.bits| <= FRAMES
      && (forall f :: pools.krnlMem.IsFree(f) ==> f !in dirs && !IsTable(ram, dirs, f))
    }

    function LoadWord(va: Word): Word
      requires IsRam(ram) && Walk(ram, cr3, PageOf(va)).Some?
      reads this
    {
      ram[Walk(ram, cr3, PageOf(va)).value][OffsetOf(va) / 4]
    }

    method StoreWord(va: Word, w: Word)
      requires IsRam(ram) && Walk(ram, cr3, PageOf(va)).Some?
      modifies this`ram
      ensures IsRam(ram) && ram == Poke(old(ram), Walk(old(ram), cr3, PageOf(va)).value, OffsetOf(va) / 4, w)
    {
      ram := Poke(ram, Walk(ram, cr3, PageOf(va)).value, OffsetOf(va) / 4, w);
    }

    /** One frame of the kernel pool. */
    method AllocKernelFrame() returns (r: Option<Frame>)
      requires pools.krnlMem.start + |pools.krnlMem.bits| <= FRAMES
      modifies this`pools
      ensures r.None? <==> CountFree(old(pools).krnlMem.bits) == 0
      ensures r.None? ==> pools == old(pools)
      ensures r.Some? ==>
        old(pools).krnlMem.IsFree(r.value) && pools == old(pools).(krnlMem := old(pools).krnlMem.With(r.value, true))
      ensures r.Some? ==> CountFree(pools.krnlMem.bits) == CountFree(old(pools).krnlMem.bits) - 1
    {
      FindOne(pools.krnlMem.bits);
      match FindRun(pools.krnlMem.bits, 1)
      case None => r := None;
      case Some(b) =>
        var f := pools.krnlMem.start + b;
        WithCount(pools.krnlMem, f, true);
        pools := pools.(krnlMem := pools.krnlMem.With(f, true));
        r := Some(f);
    }

    /** Clears the table of `va`, word by word, through its self-referencing page. */
    method ClearTable(va: Word, tab: Frame)
      requires IsRam(ram) && TableOf(ram, cr3, SELF_REF) == Some(cr3)
      requires TableOf(ram, cr3, PageOf(va).d) == Some(tab) && tab != cr3
      modifies this`ram
      ensures IsRam(ram) && ram == old(ram)[tab := ZeroPage()]
    {
      hide IsPresent, FrameOf;
      SelfMap(ram, cr3, va);
      var base := TabEntryAddr(va) - OffsetOf(TabEntryAddr(va));
      var i := 0;
      while i != ENTRIES
        invariant i <= ENTRIES && IsRam(ram)
        invariant forall f :: 0 <= f < FRAMES && f != tab ==> ram[f] == old(ram)[f]
        invariant forall k :: 0 <= k < i ==> ram[tab][k] == 0
      {
        SelfMap(ram, cr3, va);
        PageWord(TabEntryAddr(va), i);
        StoreWord(base + 4 * i, 0);
        i := i + 1;
      }
      assert ram[tab] == ZeroPage();
    }

    lemma PageWord(va: Word, i: nat)
      requires i < ENTRIES
      ensures var w := va - OffsetOf(va) + 4 * i;
        w < WORD_LIMIT && PageOf(w) == PageOf(va) && OffsetOf(w) / 4 == i
    {
      var q := va / PAGE_SIZE;
      var w := q * PAGE_SIZE + 4 * i;
      assert q < FRAMES && w < WORD_LIMIT && w / PAGE_SIZE == q && w % PAGE_SIZE == 4 * i;
      PageByNumber(va);
      PageByNumber(w);
    }

    lemma PageByNumber(va: Word)
      ensures PageOf(va) == Page(va / PAGE_SIZE / ENTRIES, va / PAGE_SIZE % ENTRIES)
    {
    }

    /** Hooks a new, cleared table into the directory entry of `va`; `None` means out of memory. */
    method NewTable(va: Word) returns (r: Option<Frame>)
      requires TablesOk() && PageOf(va).d < SELF_REF && TableOf(ram, cr3, PageOf(va).d).None?
      modifies this`ram, this`pools
      ensures r.None? <==> CountFree(old(pools).krnlMem.bits) == 0
      ensures r.None? ==> ram == old(ram) && pools == old(pools)
      ensures r.Some? ==>
        && old(pools).krnlMem.IsFree(r.value) && r.value !in dirs && !IsTable(old(ram), dirs, r.value)
        && pools == old(pools).(krnlMem := old(pools).krnlMem.With(r.value, true))
        && CountFree(pools.krnlMem.bits) == CountFree(old(pools).krnlMem.bits) - 1
        && ram == WithTable(old(ram), cr3, PageOf(va).d, r.value)
        && TableStored(old(ram), ram, cr3, va / 0x40_0000, r.value)
    {
      SelfMap(ram, cr3, va);
      var entry := LoadWord(DirEntryAddr(va));
      r := AllocKernelFrame();
      if r.Some? {
        var tab := r.value;
        MappingFields(entry, tab);
        StoreWord(DirEntryAddr(va), Mapping(entry, tab));
        ClearTable(va, tab);
        WithTableStores(old(ram), cr3, PageOf(va).d, tab);
      }
    }

    /**
     Maps the page of `va` to `frame`. When the page has no table and no frame is left for one,
     the kernel stops (`!ok`).
     */
    method MapToPhyAddr(va: Word, frame: Frame) returns (ok: bool)
      requires TablesOk() && PageOf(va).d < SELF_REF && Walk(ram, cr3, PageOf(va)).None?
      modifies this`ram, this`pools
      ensures ok <==> TableOf(old(ram), cr3, PageOf(va).d).Some? || CountFree(old(pools).krnlMem.bits) > 0
      ensures !ok ==> ram == old(ram) && pools == old(pools)
      ensures IsRam(ram) && (ok ==> SpacesOk(boot, ram, dirs))
      ensures ok ==> MapEffect(old(ram), ram, dirs, old(pools), pools, cr3, PageOf(va), frame)
      ensures ok ==> PageStored(old(ram), ram, cr3, va / 0x40_0000, va / 4096 % 1024, frame)
      ensures ok ==> forall dir, p: VPage :: dir in dirs && p.d < SELF_REF ==>
        Walk(ram, dir, p) == if SamePage(boot, dir, p, cr3, PageOf(va)) then Some(frame) else Walk(old(ram), dir, p)
    {
      hide IsPresent, FrameOf, Mapping, SpacesOk, IsTable, TableStored, PageStored;
      SelfRefs(boot, ram, dirs, cr3);
      SelfMap(ram, cr3, va);
      ghost var p, newTab := PageOf(va), None;
      var entry := LoadWord(DirEntryAddr(va));
      EntryPresent(ram, cr3, p.d);
      if !IsPresent(entry) {
        var tab := NewTable(va);
        if tab.None? {
          return false;
        }
        NewTableKeepsWalks(boot, old(ram), dirs, cr3, p.d, tab.value);
        newTab := tab;
      }
      ghost var mid := ram;
      SelfRefs(boot, ram, dirs, cr3);
      SelfMap(ram, cr3, va);
      var tabEntry := LoadWord(TabEntryAddr(va));
      EntryWalk(ram, cr3, p);
      assert !IsPresent(tabEntry);
      StoreWord(TabEntryAddr(va), Mapping(tabEntry, frame));
      assert ram == WithPage(mid, cr3, p, frame);
      assert newTab.Some? ==> NewTableEffect(old(ram), ram, dirs, old(pools), pools, cr3, p, frame, newTab.value);
      NewPageWalks(boot, mid, dirs, cr3, p, frame);
      NoDirectory(boot, mid, dirs, cr3, p.d);
      WithPageStores(mid, cr3, p, frame);
      if newTab.Some? {
        NewPageStores(old(ram), mid, ram, cr3, p, newTab.value, frame);
      }
      ok := true;
    }

    /** Removes the mapping of the page of `va`, if it has one. */
    method Unmap(va: Word)
      requires IsRam(ram) && SpacesOk(boot, ram, dirs) && cr3 in dirs && PageOf(va).d < SELF_REF
      modifies this`ram
      ensures IsRam(ram) && ram == WithoutPage(old(ram), cr3, PageOf(va)) && SpacesOk(boot, ram, dirs)
      ensures PageCleared(old(ram), ram, cr3, va / 0x40_0000, va / 4096 % 1024)
      ensures forall dir, p: VPage :: dir in dirs && p.d < SELF_REF ==>
        Walk(ram, dir, p) == if SamePage(boot, dir, p, cr3, PageOf(va)) then None else Walk(old(ram), dir, p)
    {
      hide IsPresent, FrameOf, SpacesOk;
      SelfRefs(boot, ram, dirs, cr3);
      SelfMap(ram, cr3, va);
      EntryPresent(ram, cr3, PageOf(va).d);
      NoPageWalks(boot, ram, dirs, cr3, PageOf(va));
      WithoutPageClears(ram, cr3, PageOf(va));
      if IsPresent(LoadWord(DirEntryAddr(va))) {
        StoreWord(TabEntryAddr(va), SetPresent(LoadWord(TabEntryAddr(va)), false));
      }
    }
  }

  lemma SelfRefs(boot: Frame, ram: Ram, dirs: set<Frame>, dir: Frame)
    requires IsRam(ram) && SpacesOk(boot, ram, dirs) && dir in dirs
    ensures TableOf(ram, dir, SELF_REF) == Some(dir)
  {
  }

  lemma NoDirectory(boot: Frame, ram: Ram, dirs: set<Frame>, dir: Frame, d: nat)
    requires IsRam(ram) && SpacesOk(boot, ram, dirs) && dir in dirs && d < SELF_REF
    ensures TableOf(ram, dir, d) != Some(dir)
  {
  }

  lemma EntryPresent(ram: Ram, dir: Frame, d: nat)
    requires IsRam(ram) && d < ENTRIES
    ensures IsPresent(ram[dir][d]) <==> TableOf(ram, dir, d).Some?
    ensures TableOf(ram, dir, d).Some? ==> TableOf(ram, dir, d).value == FrameOf(ram[dir][d])
  {
  }

  lemma EntryWalk(ram: Ram, dir: Frame, p: VPage)
    requires IsRam(ram) && TableOf(ram, dir, p.d).Some?
    ensures IsPresent(ram[TableOf(ram, dir, p.d).value][p.t]) <==> Walk(ram, dir, p).Some?
    ensures FrameOf(ram[dir][p.d]) == TableOf(ram, dir, p.d).value
  {
  }
}
