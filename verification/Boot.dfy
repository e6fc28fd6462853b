/** The memory that the loader hands to the kernel. */
module Boot {
  import opened Wrappers
  import opened Words
  import opened BitRuns
  import opened PageTables
  import opened AddressSpaces
  import opened MemoryUnit
  import opened MemoryInvariant
  import opened PageAllocation

  /** The frame of the boot directory, its first table, and the first frame that the pools manage. */
  const BOOT_DIR := 0x100
  const FIRST_TABLE := BOOT_DIR + 1
  const KRNL_TABLES := SELF_REF - KRNL_START
  const FIRST_FREE := FIRST_TABLE + KRNL_TABLES
  /** The pages of the kernel image, which are mapped from the start. */
  const IMAGE_PAGES := 256
  /** The first page that the kernel's address pool manages. */
  const HEAP_PAGE := KRNL_START * ENTRIES + IMAGE_PAGES

  /** A present, writable entry of user level. */
  function Entry(frame: nat): Word
    requires frame < FRAMES
  {
    frame * PAGE_SIZE + 7
  }

  function BootDirEntry(d: nat): Word
    requires d < ENTRIES
  {
    if d == 0 then Entry(FIRST_TABLE)
    else if d < KRNL_START then 0
    else if d < SELF_REF then Entry(FIRST_TABLE + d - KRNL_START)
    else Entry(BOOT_DIR)
  }

  /** The directory and the tables as the loader sets them up; tables that it does not write hold zeros. */
  ghost predicate IsBootMemory(ram: Ram)
    requires IsRam(ram)
  {
    && (forall d :: 0 <= d < ENTRIES ==> ram[BOOT_DIR][d] == BootDirEntry(d))
    && (forall t :: 0 <= t < ENTRIES ==> ram[FIRST_TABLE][t] == if t < IMAGE_PAGES then Entry(t) else 0)
    && (forall f, t :: FIRST_TABLE < f < FIRST_FREE && 0 <= t < ENTRIES ==> ram[f][t] == 0)
  }

  function NoneUsed(n: nat): (r: Bits)
    ensures |r| == n / 8 * 8
    ensures forall k :: 0 <= k < |r| ==> !r[k]
  {
    seq(n / 8 * 8, _ => false)
  }

  /** The pools of a machine with `total` frames: the free ones are halved between the kernel and users. */
  function BootPools(total: nat): Pools
    requires FIRST_FREE <= total
  {
    var krnl := (total - FIRST_FREE) / 2;
    var usr := total - FIRST_FREE - krnl;
    Pools(Pool(FIRST_FREE, NoneUsed(krnl)), Pool(FIRST_FREE + krnl, NoneUsed(usr)),
          Pool(HEAP_PAGE, NoneUsed(krnl)), map[])
  }

  /** A pool of `count` pages, all free; the bitmap has whole bytes only. */
  ghost predicate AllFree(pool: Pool, start: nat, count: nat) {
    && pool.start == start && |pool.bits| % 8 == 0 && |pool.bits| <= count < |pool.bits| + 8
    && (forall k :: 0 <= k < |pool.bits| ==> !pool.bits[k])
  }

  /**
   Behind the 0x200 frames in use the kernel has the first half of the frames and users have the
   rest; the kernel has as many addresses as frames, and there is no process.
   */
  ghost predicate FramesHalved(pools: Pools, total: nat) {
    var krnl := pools.usrMem.start - 0x200;
    var usr := total - 0x200 - krnl;
    && 0 <= krnl <= usr <= krnl + 1
    && AllFree(pools.krnlMem, 0x200, krnl) && AllFree(pools.usrMem, 0x200 + krnl, usr)
    && AllFree(pools.krnlAddr, 0xC0100, krnl) && pools.usrAddr == map[]
  }

  lemma BootPoolsHalved(total: nat)
    requires FIRST_FREE <= total
    ensures FramesHalved(BootPools(total), total)
  {
  }

  lemma EntryFields(frame: nat)
    requires frame < FRAMES
    ensures IsPresent(Entry(frame)) && FrameOf(Entry(frame)) == frame
  {
  }

  /** The table of each directory slot: slots 0 and 768 share the first one. */
  function BootTable(d: nat): Option<Frame>
    requires d < ENTRIES
  {
    if d == 0 then Some(FIRST_TABLE)
    else if d < KRNL_START then None
    else if d < SELF_REF then Some(FIRST_TABLE + d - KRNL_START)
    else Some(BOOT_DIR)
  }

  lemma BootTables(ram: Ram)
    requires IsRam(ram) && IsBootMemory(ram)
    ensures forall d :: 0 <= d < ENTRIES ==> TableOf(ram, BOOT_DIR, d) == BootTable(d)
  {
    UnusedEntry();
    forall d | 0 <= d < ENTRIES ensures TableOf(ram, BOOT_DIR, d) == BootTable(d) {
      hide IsPresent, FrameOf, Entry;
      assert ram[BOOT_DIR][d] == BootDirEntry(d);
      EntryFields(FIRST_TABLE);
      EntryFields(BOOT_DIR);
      if KRNL_START <= d < SELF_REF {
        EntryFields(FIRST_TABLE + d - KRNL_START);
      }
    }
  }

  /** Besides the image and its alias, nothing is mapped. */
  lemma BootWalks(ram: Ram, p: VPage)
    requires IsRam(ram) && IsBootMemory(ram) && p.d < SELF_REF && Walk(ram, BOOT_DIR, p).Some?
    ensures (p.d == 0 || p.d == KRNL_START) && p.t < IMAGE_PAGES && Walk(ram, BOOT_DIR, p) == Some(p.t)
  {
    BootTables(ram);
    UnusedEntry();
    if p.t < IMAGE_PAGES {
      EntryFields(p.t);
    }
    assert forall f, t :: FIRST_TABLE < f < FIRST_FREE && 0 <= t < ENTRIES ==> !IsPresent(ram[f][t]);
    hide IsPresent, FrameOf, Entry;
  }

  /**
   The invariant holds when the kernel has set up its pools; the pages of its half must be able to
   address its frames.
   */
  lemma BootKeepsInv(ram: Ram, total: nat)
    requires IsRam(ram) && IsBootMemory(ram) && FIRST_FREE <= total <= FRAMES
    requires (total - FIRST_FREE) / 2 <= SELF_REF * ENTRIES - HEAP_PAGE
    ensures Inv(BOOT_DIR, ram, {BOOT_DIR}, BootPools(total))
  {
    var pools := BootPools(total);
    BootTables(ram);
    forall dir, p: VPage | dir in {BOOT_DIR} && p.d < SELF_REF && Walk(ram, dir, p).Some?
      ensures (p.d == 0 || p.d == KRNL_START) && p.t < IMAGE_PAGES
    {
      BootWalks(ram, p);
    }
    hide Walk, TableOf, NoneUsed;
    assert FramesOk(ram, {BOOT_DIR}, pools);
    assert UserOk(BOOT_DIR, ram, {BOOT_DIR}, pools);
    assert KernelOk(BOOT_DIR, ram, {BOOT_DIR}, pools);
    BootSpaces(ram);
  }

  lemma BootSpaces(ram: Ram)
    requires IsRam(ram) && IsBootMemory(ram)
    ensures SpacesOk(BOOT_DIR, ram, {BOOT_DIR})
  {
    BootTables(ram);
    hide TableOf, IsBootMemory;
  }

  /** The state in which the kernel starts. */
  method Start(ram: Ram, total: nat) returns (m: Memory)
    requires IsRam(ram) && IsBootMemory(ram) && FIRST_FREE <= total <= FRAMES
    requires (total - FIRST_FREE) / 2 <= SELF_REF * ENTRIES - HEAP_PAGE
    ensures fresh(m) && Valid(m) && m.ram == ram && m.cr3 == m.boot == BOOT_DIR && m.pools == BootPools(total)
    ensures FramesHalved(m.pools, total) && m.dirs == {0x100}
  {
    BootPoolsHalved(total);
    BootKeepsInv(ram, total);
    m := new Memory(BOOT_DIR, ram, BootPools(total));
  }
}
