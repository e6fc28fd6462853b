/**
 Two-level paging: page entries, virtual addresses, and the walk that the processor makes
 (Intel SDM, Volume 3A, section 4.3, 32-bit paging with 4 KB pages). Bit fields of entries
 and addresses are written as quotients and remainders.
 */
module PageTables {
  import opened Wrappers
  import opened Words

  const ENTRIES := 1024
  const PAGE_SIZE := 4096
  const FRAMES := 0x10_0000
  /** The directory entries of the kernel half; the last entry refers to the directory itself. */
  const KRNL_START := 768
  const SELF_REF := 1023

  type Frame = f: nat | f < FRAMES
  type Ram = seq<seq<Word>>

  predicate IsRam(ram: Ram) {
    |ram| == FRAMES && forall f :: 0 <= f < FRAMES ==> |ram[f]| == ENTRIES
  }

  // Page entries.

  predicate IsPresent(e: Word) {
    e % 2 == 1
  }

  predicate IsWritable(e: Word) {
    e / 2 % 2 == 1
  }

  predicate IsSupervisor(e: Word) {
    e / 4 % 2 == 0
  }

  function FrameOf(e: Word): (r: Frame) {
    e / PAGE_SIZE
  }

  function SetPresent(e: Word, present: bool): (r: Word)
    ensures r % 2 == (if present then 1 else 0) && r / 2 == e / 2
  {
    e / 2 * 2 + if present then 1 else 0
  }

  function SetWritable(e: Word, writable: bool): (r: Word)
    ensures r % 2 == e % 2 && r / 2 % 2 == (if writable then 1 else 0) && r / 4 == e / 4
  {
    var bit := if writable then 1 else 0;
    var high := e / 4 * 2 + bit;
    assert high / 2 == e / 4 && high % 2 == bit && high < WORD_LIMIT / 2;
    var r := high * 2 + e % 2;
    assert r / 2 == high && r / 2 / 2 == r / 4;
    r
  }

  function SetSupervisor(e: Word, supervisor: bool): (r: Word)
    ensures r % 4 == e % 4 && r / 4 % 2 == (if supervisor then 0 else 1) && r / 8 == e / 8
  {
    var bit := if supervisor then 0 else 1;
    var high := e / 8 * 2 + bit;
    assert high / 2 == e / 8 && high % 2 == bit && high < WORD_LIMIT / 4;
    var r := high * 4 + e % 4;
    assert r / 4 == high && r / 4 / 2 == r / 8;
    r
  }

  function SetAddress(e: Word, frame: Frame): (r: Word)
    ensures FrameOf(r) == frame && r % PAGE_SIZE == e % PAGE_SIZE
  {
    frame * PAGE_SIZE + e % PAGE_SIZE
  }

  /** The entry that a mapping stores: its other flag bits are kept from the entry before. */
  function Mapping(e: Word, frame: Frame): Word {
    SetPresent(SetWritable(SetSupervisor(SetAddress(e, frame), false), true), true)
  }

  /** The fields of a stored mapping, and the flag bits that it keeps. */
  lemma MappingFields(e: Word, frame: Frame)
    ensures IsPresent(Mapping(e, frame)) && IsWritable(Mapping(e, frame)) && !IsSupervisor(Mapping(e, frame))
    ensures FrameOf(Mapping(e, frame)) == frame
    ensures Mapping(e, frame) % PAGE_SIZE / 8 == e % PAGE_SIZE / 8
  {
    var a := SetAddress(e, frame);
    var b := SetSupervisor(a, false);
    var c := SetWritable(b, true);
    var d := SetPresent(c, true);
    hide SetAddress, SetSupervisor, SetWritable, SetPresent;
    assert d / 2 / 2 == c / 2 / 2 && d / 4 / 2 == c / 4 / 2 && c / 4 / 2 == b / 4 / 2;
    Quarter(d);
    Quarter(c);
    Quarter(b);
    HighBits(a, d);
  }

  lemma Quarter(e: Word)
    ensures e / 2 / 2 == e / 4 && e / 4 / 2 == e / 8
  {
  }

  lemma HighBits(a: Word, d: Word)
    requires a / 8 == d / 8
    ensures a / PAGE_SIZE == d / PAGE_SIZE && a % PAGE_SIZE / 8 == d % PAGE_SIZE / 8
  {
    assert a / 8 / 512 == a / PAGE_SIZE && d / 8 / 512 == d / PAGE_SIZE;
  }

  /** Clearing the present bit keeps the address. */
  lemma UnmapFields(e: Word)
    ensures !IsPresent(SetPresent(e, false)) && FrameOf(SetPresent(e, false)) == FrameOf(e)
  {
    var r := SetPresent(e, false);
    hide SetPresent;
    assert r / 2 / 2 / 2 == e / 2 / 2 / 2;
    Quarter(e);
    Quarter(r);
    HighBits(e, r);
  }

  // Virtual addresses.

  /** A page of the virtual address space: its directory index and its table index. */
  datatype Page = Page(d: nat, t: nat)

  type VPage = p: Page | p.d < ENTRIES && p.t < ENTRIES witness Page(0, 0)

  function PageOf(va: Word): VPage {
    Page(va / 0x40_0000, va / PAGE_SIZE % ENTRIES)
  }

  function OffsetOf(va: Word): nat {
    va % PAGE_SIZE
  }

  /** The page with the given number. */
  function PageAt(n: nat): VPage
    requires n < FRAMES
  {
    Page(n / ENTRIES, n % ENTRIES)
  }

  function NumberOf(p: VPage): nat {
    p.d * ENTRIES + p.t
  }

  lemma PageNumbers(n: nat, p: VPage)
    requires n < FRAMES
    ensures NumberOf(PageAt(n)) == n && NumberOf(p) < FRAMES && PageAt(NumberOf(p)) == p
  {
  }

  function BaseOf(p: VPage): Word {
    NumberOf(p) * PAGE_SIZE
  }

  lemma BaseOfPage(p: VPage)
    ensures PageOf(BaseOf(p)) == p && OffsetOf(BaseOf(p)) == 0
  {
  }

  /** Where the entry of the page with number `n` is found from its address. */
  lemma BaseOfNumber(n: nat)
    requires n < FRAMES
    ensures BaseOf(PageAt(n)) == n * 4096
    ensures n * 4096 / 0x40_0000 == n / 1024 && n * 4096 / 4096 % 1024 == n % 1024
  {
    PageNumbers(n, PageAt(n));
  }

  /** The address through which the self-reference makes the directory entry of `va` accessible. */
  function DirEntryAddr(va: Word): Word {
    SELF_REF * 0x40_0000 + SELF_REF * PAGE_SIZE + PageOf(va).d * 4
  }

  /** The address through which the self-reference makes the table entry of `va` accessible. */
  function TabEntryAddr(va: Word): Word {
    SELF_REF * 0x40_0000 + PageOf(va).d * PAGE_SIZE + PageOf(va).t * 4
  }

  // The processor's walk.

  /** The table that directory entry `d` refers to. */
  function TableOf(ram: Ram, dir: Frame, d: nat): Option<Frame>
    requires IsRam(ram) && d < ENTRIES
  {
    if IsPresent(ram[dir][d]) then Some(FrameOf(ram[dir][d])) else None
  }

  /** The frame that a page is mapped to. */
  function Walk(ram: Ram, dir: Frame, p: VPage): Option<Frame>
    requires IsRam(ram)
  {
    match TableOf(ram, dir, p.d)
    case None => None
    case Some(tab) => if IsPresent(ram[tab][p.t]) then Some(FrameOf(ram[tab][p.t])) else None
  }

  /** The self-referencing addresses: the directory fills the last page, and all tables the last 4 MB. */
  lemma SelfAddresses(va: Word)
    ensures DirEntryAddr(va) == 0xFFFF_F000 + va / 0x40_0000 * 4
    ensures TabEntryAddr(va) == 0xFFC0_0000 + va / 4096 * 4
  {
    var q := va / 4096;
    assert va / 0x40_0000 == q / 1024 && q == q / 1024 * 1024 + q % 1024;
  }

  /** Where the two self-referencing addresses lead. */
  lemma SelfMap(ram: Ram, dir: Frame, va: Word)
    requires IsRam(ram) && TableOf(ram, dir, SELF_REF) == Some(dir)
    ensures Walk(ram, dir, PageOf(DirEntryAddr(va))) == Some(dir)
    ensures OffsetOf(DirEntryAddr(va)) == PageOf(va).d * 4
    ensures Walk(ram, dir, PageOf(TabEntryAddr(va))) == TableOf(ram, dir, PageOf(va).d)
    ensures OffsetOf(TabEntryAddr(va)) == PageOf(va).t * 4
  {
    var (d, t) := (PageOf(va).d, PageOf(va).t);
    assert PageOf(DirEntryAddr(va)) == Page(SELF_REF, SELF_REF);
    assert PageOf(TabEntryAddr(va)) == Page(SELF_REF, d);
  }

  // What mapping and unmapping do to memory.

  function ZeroPage(): (r: seq<Word>)
    ensures |r| == ENTRIES
    ensures forall k :: 0 <= k < ENTRIES ==> r[k] == 0
  {
    seq(ENTRIES, _ => 0)
  }

  /** Memory with one word replaced. */
  function Poke(ram: Ram, f: Frame, i: nat, w: Word): (r: Ram)
    requires IsRam(ram) && i < ENTRIES
    ensures IsRam(r)
    ensures forall g :: 0 <= g < FRAMES && g != f ==> r[g] == ram[g]
    ensures r[f] == ram[f][i := w]
  {
    var words: seq<Word> := ram[f][i := w];
    ram[f := words]
  }

  /** Memory with the content of one frame replaced. */
  function PutFrame(ram: Ram, f: Frame, content: seq<Word>): (r: Ram)
    requires IsRam(ram) && |content| == ENTRIES
    ensures IsRam(r)
    ensures FrameAt(r, f) == content
    ensures forall g: Frame :: g != f ==> FrameAt(r, g) == FrameAt(ram, g)
  {
    ram[f := content]
  }

  function FrameAt(ram: Ram, f: Frame): (r: seq<Word>)
    requires IsRam(ram)
    ensures |r| == ENTRIES
  {
    ram[f]
  }

  /**
   Word `w'` is entry `w` after a mapping to `frame` was stored in it: present, writable and open
   to user code, with the flag bits 3 to 11 of `w`.
   */
  predicate MapsTo(w: Word, w': Word, frame: nat) {
    w' % 2 == 1 && w' / 2 % 2 == 1 && w' / 4 % 2 == 1 && w' / 8 % 512 == w / 8 % 512 && w' / 4096 == frame
  }

  lemma MappingStores(e: Word, frame: Frame)
    ensures MapsTo(e, Mapping(e, frame), frame)
  {
    var w := Mapping(e, frame);
    MappingFields(e, frame);
    hide Mapping;
    Quarter(w);
    KeptFlags(e);
    KeptFlags(w);
  }

  lemma KeptFlags(e: Word)
    ensures e % PAGE_SIZE / 8 == e / 8 % 512
  {
    var low := e % PAGE_SIZE;
    assert e / 8 == e / PAGE_SIZE * 512 + low / 8;
  }

  /** A mapping stored in a cleared entry has no other flag. */
  lemma FreshMapping(frame: Frame)
    ensures Mapping(0, frame) == frame * 4096 + 7
  {
    var w := Mapping(0, frame);
    MappingStores(0, frame);
    hide Mapping;
    var low := w % 4096;
    KeptFlags(w);
    assert low / 8 == 0 && low % 2 == 1 && low / 2 % 2 == 1 && low / 4 % 2 == 1;
  }

  /** Directory entry `d` leads to the cleared table `tab`, and no other word of memory is changed. */
  ghost predicate TableStored(ram: Ram, ram': Ram, dir: Frame, d: nat, tab: Frame)
    requires IsRam(ram) && IsRam(ram') && d < ENTRIES
  {
    && MapsTo(ram[dir][d], ram'[dir][d], tab)
    && (forall k :: 0 <= k < ENTRIES ==> ram'[tab][k] == 0)
    && (forall f, k :: 0 <= f < FRAMES && 0 <= k < ENTRIES && f != tab && (f != dir || k != d) ==>
         ram'[f][k] == ram[f][k])
  }

  /**
   Memory before and after word `t` of the table of directory entry `d` was set, word by word: an
   absent table has been hooked in and cleared, word `t` of the table leads to `frame`, and no
   other word is changed.
   */
  ghost predicate PageStored(ram: Ram, ram': Ram, dir: Frame, d: nat, t: nat, frame: Frame)
    requires IsRam(ram) && IsRam(ram') && d < ENTRIES && t < ENTRIES
  {
    var had := ram[dir][d] % 2 == 1;
    var tab := ram'[dir][d] / 4096;
    && (if had then ram'[dir][d] == ram[dir][d] else MapsTo(ram[dir][d], ram'[dir][d], tab))
    && MapsTo(if had then ram[tab][t] else 0, ram'[tab][t], frame)
    && (forall k :: 0 <= k < ENTRIES && k != t ==> ram'[tab][k] == if had then ram[tab][k] else 0)
    && (forall f, k :: 0 <= f < FRAMES && 0 <= k < ENTRIES && f != tab && (f != dir || k != d) ==>
         ram'[f][k] == ram[f][k])
  }

  /** Only the present bit of word `t` of the table is cleared, where there is a table. */
  ghost predicate PageCleared(ram: Ram, ram': Ram, dir: Frame, d: nat, t: nat)
    requires IsRam(ram) && IsRam(ram') && d < ENTRIES && t < ENTRIES
  {
    var tab := ram[dir][d] / 4096;
    if ram[dir][d] % 2 == 0 then ram' == ram
    else
      && ram'[tab][t] % 2 == 0 && ram'[tab][t] / 2 == ram[tab][t] / 2
      && (forall f, k :: 0 <= f < FRAMES && 0 <= k < ENTRIES && (f != tab || k != t) ==> ram'[f][k] == ram[f][k])
  }

  /** Memory after an empty table has been hooked into directory slot `d`. */
  function WithTable(ram: Ram, dir: Frame, d: nat, tab: Frame): (r: Ram)
    requires IsRam(ram) && d < ENTRIES && tab != dir
    ensures IsRam(r)
  {
    Poke(ram, dir, d, Mapping(ram[dir][d], tab))[tab := ZeroPage()]
  }

  lemma WithTableStores(ram: Ram, dir: Frame, d: nat, tab: Frame)
    requires IsRam(ram) && d < ENTRIES && tab != dir
    ensures TableStored(ram, WithTable(ram, dir, d, tab), dir, d, tab)
  {
    MappingStores(ram[dir][d], tab);
    hide Mapping, MapsTo;
  }

  /** Memory after page `p`, which has a table, has been mapped to `frame`. */
  function WithPage(ram: Ram, dir: Frame, p: VPage, frame: Frame): (r: Ram)
    requires IsRam(ram) && TableOf(ram, dir, p.d).Some?
    ensures IsRam(r)
  {
    var tab := FrameOf(ram[dir][p.d]);
    Poke(ram, tab, p.t, Mapping(ram[tab][p.t], frame))
  }

  /** A page is mapped in its table, or in the table that was hooked in for it. */
  lemma WithPageStores(ram: Ram, dir: Frame, p: VPage, frame: Frame)
    requires IsRam(ram) && TableOf(ram, dir, p.d).Some? && TableOf(ram, dir, p.d).value != dir
    ensures PageStored(ram, WithPage(ram, dir, p, frame), dir, p.d, p.t, frame)
  {
    MappingStores(ram[FrameOf(ram[dir][p.d])][p.t], frame);
    hide Mapping, MapsTo;
  }

  lemma NewPageStores(ram: Ram, mid: Ram, ram': Ram, dir: Frame, p: VPage, tab: Frame, frame: Frame)
    requires IsRam(ram) && IsRam(mid) && IsRam(ram') && tab != dir && TableOf(ram, dir, p.d).None?
    requires TableStored(ram, mid, dir, p.d, tab) && PageStored(mid, ram', dir, p.d, p.t, frame)
    ensures PageStored(ram, ram', dir, p.d, p.t, frame)
  {
    assert mid[dir][p.d] % 2 == 1 && mid[dir][p.d] / 4096 == tab;
    hide MapsTo;
  }

  function WithoutPage(ram: Ram, dir: Frame, p: VPage): (r: Ram)
    requires IsRam(ram)
    ensures IsRam(r)
  {
    match TableOf(ram, dir, p.d)
    case None => ram
    case Some(tab) => Poke(ram, tab, p.t, SetPresent(ram[tab][p.t], false))
  }

  lemma WithoutPageClears(ram: Ram, dir: Frame, p: VPage)
    requires IsRam(ram)
    ensures PageCleared(ram, WithoutPage(ram, dir, p), dir, p.d, p.t)
  {
  }
}

/**
 The address spaces of all processes: which page tables they share, and how one mapping
 shows in each of them.
 */
module AddressSpaces {
  import opened Wrappers
  import opened Words
  import opened PageTables

  datatype Slot = Slot(dir: Frame, d: nat)

  /**
   The slot that a table is filed under. All directories share the kernel half, and in the
   boot directory entry 0 is an alias of entry 768.
   */
  function Home(boot: Frame, dir: Frame, d: nat): Slot {
    if d >= KRNL_START then Slot(boot, d)
    else if dir == boot && d == 0 then Slot(boot, KRNL_START)
    else Slot(dir, d)
  }

  ghost predicate IsTable(ram: Ram, dirs: set<Frame>, f: nat)
    requires IsRam(ram)
  {
    exists dir, d :: dir in dirs && 0 <= d < SELF_REF && TableOf(ram, dir, d) == Some(f)
  }

  /** The directories refer to themselves, agree on the kernel half, and share no other table. */
  ghost predicate SpacesOk(boot: Frame, ram: Ram, dirs: set<Frame>)
    requires IsRam(ram)
  {
    && boot in dirs
    && (forall dir :: dir in dirs ==> TableOf(ram, dir, SELF_REF) == Some(dir))
    && (forall dir, d :: dir in dirs && KRNL_START <= d < SELF_REF ==>
         TableOf(ram, dir, d).Some? && ram[dir][d] == ram[boot][d])
    && (forall dir, d, f :: dir in dirs && 0 <= d < SELF_REF && TableOf(ram, dir, d) == Some(f) ==> f !in dirs)
    && TableOf(ram, boot, 0) == TableOf(ram, boot, KRNL_START)
    && (forall dir, d, dir', d' :: dir in dirs && dir' in dirs && 0 <= d < SELF_REF && 0 <= d' < SELF_REF
         && TableOf(ram, dir, d).Some? && TableOf(ram, dir, d) == TableOf(ram, dir', d')
         ==> Home(boot, dir, d) == Home(boot, dir', d'))
  }

  lemma NotTable(ram: Ram, dirs: set<Frame>, f: nat)
    requires IsRam(ram) && !IsTable(ram, dirs, f)
    ensures forall dir, d :: dir in dirs && 0 <= d < SELF_REF ==> TableOf(ram, dir, d) != Some(f)
  {
  }

  lemma HomeTable(boot: Frame, ram: Ram, dirs: set<Frame>, dir: Frame, d: nat)
    requires IsRam(ram) && SpacesOk(boot, ram, dirs) && dir in dirs && d < SELF_REF
    ensures var h := Home(boot, dir, d);
      h.dir in dirs && h.d < SELF_REF && TableOf(ram, dir, d) == TableOf(ram, h.dir, h.d)
  {
    if d >= KRNL_START {
      assert ram[dir][d] == ram[boot][d];
    }
  }

  /** Two slots have the same table exactly when they are filed under the same home. */
  lemma SameHomeSameTable(boot: Frame, ram: Ram, dirs: set<Frame>, dir: Frame, d: nat, dir': Frame, d': nat)
    requires IsRam(ram) && SpacesOk(boot, ram, dirs)
    requires dir in dirs && dir' in dirs && d < SELF_REF && d' < SELF_REF
    ensures Home(boot, dir, d) == Home(boot, dir', d') ==> TableOf(ram, dir, d) == TableOf(ram, dir', d')
    ensures TableOf(ram, dir, d).Some? && TableOf(ram, dir, d) == TableOf(ram, dir', d') ==>
      Home(boot, dir, d) == Home(boot, dir', d')
  {
    HomeTable(boot, ram, dirs, dir, d);
    HomeTable(boot, ram, dirs, dir', d');
  }

  /** Only the directories themselves decide whether the spaces are in order. */
  lemma SpacesFrame(boot: Frame, ram: Ram, ram': Ram, dirs: set<Frame>)
    requires IsRam(ram) && IsRam(ram') && SpacesOk(boot, ram, dirs)
    requires forall dir :: dir in dirs ==> ram'[dir] == ram[dir]
    ensures SpacesOk(boot, ram', dirs)
    ensures forall dir, d :: dir in dirs && 0 <= d < ENTRIES ==> TableOf(ram', dir, d) == TableOf(ram, dir, d)
  {
    hide IsPresent, FrameOf;
    assert forall dir, d :: dir in dirs && 0 <= d < ENTRIES ==> TableOf(ram', dir, d) == TableOf(ram, dir, d);
  }

  /** A page of one space is the page `q` of another one when both use the same table entry. */
  predicate SamePage(boot: Frame, dir: Frame, p: VPage, dir': Frame, q: VPage) {
    p.t == q.t && Home(boot, dir, p.d) == Home(boot, dir', q.d)
  }

  /** Hooking in a new empty table changes no translation of any space. */
  lemma NewTableKeepsWalks(boot: Frame, ram: Ram, dirs: set<Frame>, cr3: Frame, d: nat, tab: Frame)
    requires IsRam(ram) && SpacesOk(boot, ram, dirs) && cr3 in dirs && d < SELF_REF
    requires TableOf(ram, cr3, d).None? && tab !in dirs && !IsTable(ram, dirs, tab)
    ensures var ram' := WithTable(ram, cr3, d, tab);
      && SpacesOk(boot, ram', dirs)
      && (forall dir, i :: dir in dirs && 0 <= i < ENTRIES ==>
           TableOf(ram', dir, i) == (if dir == cr3 && i == d then Some(tab) else TableOf(ram, dir, i)))
      && forall dir, p: VPage :: dir in dirs && p.d < SELF_REF ==> Walk(ram', dir, p) == Walk(ram, dir, p)
  {
    var ram' := WithTable(ram, cr3, d, tab);
    MappingFields(ram[cr3][d], tab);
    assert d < KRNL_START && !(cr3 == boot && d == 0);
    hide FrameOf, Mapping;
    forall dir, i | dir in dirs && 0 <= i < ENTRIES
      ensures TableOf(ram', dir, i) == if dir == cr3 && i == d then Some(tab) else TableOf(ram, dir, i)
      ensures dir != cr3 || i != d ==> ram'[dir][i] == ram[dir][i]
    {
    }
    assert ram'[tab] == ZeroPage();
    NotTable(ram, dirs, tab);
    hide IsPresent;
    forall dir, i | dir in dirs && 0 <= i < SELF_REF && TableOf(ram', dir, i).Some?
      ensures TableOf(ram', dir, i) == Some(tab) <==> dir == cr3 && i == d
    {
    }
    forall dir, p: VPage | dir in dirs && p.d < SELF_REF
      ensures Walk(ram', dir, p) == Walk(ram, dir, p)
    {
      UnusedEntry();
      if TableOf(ram, dir, p.d).Some? {
        var f := TableOf(ram, dir, p.d).value;
        assert f !in dirs && f != tab;
        assert ram'[f] == ram[f];
      }
    }
  }

  lemma UnusedEntry()
    ensures !IsPresent(0)
  {
  }

  /**
   Mapping page `q` of the space `cr3` makes it, and every page that is the same page, lead to
   `frame`, and changes no other translation of any space.
   */
  lemma NewPageWalks(boot: Frame, ram: Ram, dirs: set<Frame>, cr3: Frame, q: VPage, frame: Frame)
    requires IsRam(ram) && SpacesOk(boot, ram, dirs) && cr3 in dirs && q.d < SELF_REF
    requires TableOf(ram, cr3, q.d).Some?
    ensures var ram' := WithPage(ram, cr3, q, frame);
      && SpacesOk(boot, ram', dirs)
      && forall dir, p: VPage :: dir in dirs && p.d < SELF_REF ==>
           Walk(ram', dir, p) == if SamePage(boot, dir, p, cr3, q) then Some(frame) else Walk(ram, dir, p)
  {
    var ram' := WithPage(ram, cr3, q, frame);
    var tab := TableOf(ram, cr3, q.d).value;
    MappingFields(ram[tab][q.t], frame);
    assert tab !in dirs;
    SpacesFrame(boot, ram, ram', dirs);
    hide Mapping, Home, SpacesOk;
    forall dir, p: VPage | dir in dirs && p.d < SELF_REF
      ensures Walk(ram', dir, p) == if SamePage(boot, dir, p, cr3, q) then Some(frame) else Walk(ram, dir, p)
    {
      SameHomeSameTable(boot, ram, dirs, dir, p.d, cr3, q.d);
    }
  }

  /** Unmapping page `q` undoes exactly that page. */
  lemma NoPageWalks(boot: Frame, ram: Ram, dirs: set<Frame>, cr3: Frame, q: VPage)
    requires IsRam(ram) && SpacesOk(boot, ram, dirs) && cr3 in dirs && q.d < SELF_REF
    ensures var ram' := WithoutPage(ram, cr3, q);
      && SpacesOk(boot, ram', dirs)
      && forall dir, p: VPage :: dir in dirs && p.d < SELF_REF ==>
           Walk(ram', dir, p) == if SamePage(boot, dir, p, cr3, q) then None else Walk(ram, dir, p)
  {
    var ram' := WithoutPage(ram, cr3, q);
    SpacesFrame(boot, ram, ram', dirs);
    hide Home, SpacesOk;
    forall dir, p: VPage | dir in dirs && p.d < SELF_REF
      ensures Walk(ram', dir, p) == if SamePage(boot, dir, p, cr3, q) then None else Walk(ram, dir, p)
    {
      SameHomeSameTable(boot, ram, dirs, dir, p.d, cr3, q.d);
    }
  }

  /** A kernel mapping made in one space holds in all of them. */
  lemma KernelPagesShared(boot: Frame, ram: Ram, dirs: set<Frame>, dir: Frame, dir': Frame, p: VPage)
    requires IsRam(ram) && SpacesOk(boot, ram, dirs) && dir in dirs && dir' in dirs && KRNL_START <= p.d < SELF_REF
    ensures Walk(ram, dir, p) == Walk(ram, dir', p)
  {
    SameHomeSameTable(boot, ram, dirs, dir, p.d, dir', p.d);
  }
}
