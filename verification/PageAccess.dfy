/** What an entry allows: pages that have been mapped can be read and written by user code. */
module PageAccess {
  import opened Wrappers
  import opened Words
  import opened PageTables
  import opened AddressSpaces

  /** The directory has a table for page `n`, and its word there is present, writable and open to user code. */
  ghost predicate IsOpen(ram: Ram, dir: Frame, n: nat)
    requires IsRam(ram)
  {
    && n < FRAMES && ram[dir][n / 1024] % 2 == 1
    && ram[ram[dir][n / 1024] / 4096][n % 1024] % 8 == 7
  }

  ghost predicate RunOpen(ram: Ram, dir: Frame, b: nat, count: nat)
    requires IsRam(ram)
  {
    forall j: nat :: b <= j < b + count ==> IsOpen(ram, dir, j)
  }

  lemma LowBits(w: Word, w': Word, frame: nat)
    requires MapsTo(w, w', frame)
    ensures w' % 8 == 7 && w' % 2 == 1
  {
    var low := w' % 8;
    assert low % 2 == 1 && low / 2 % 2 == 1 && low / 4 % 2 == 1;
  }

  /** A page whose entry has been stored is open. */
  lemma OpenMapped(ram: Ram, ram': Ram, dir: Frame, n: nat, frame: Frame)
    requires IsRam(ram) && IsRam(ram') && n < FRAMES
    requires PageStored(ram, ram', dir, n / 1024, n % 1024, frame)
    ensures IsOpen(ram', dir, n)
  {
    var (d, t) := (n / 1024, n % 1024);
    var (had, tab) := (ram[dir][d] % 2 == 1, ram'[dir][d] / 4096);
    LowBits(if had then ram[tab][t] else 0, ram'[tab][t], frame);
    if !had {
      LowBits(ram[dir][d], ram'[dir][d], tab);
    }
    hide MapsTo;
  }

  lemma TableFrame(boot: Frame, ram: Ram, dirs: set<Frame>, dir: Frame, d: nat)
    requires IsRam(ram) && SpacesOk(boot, ram, dirs) && dir in dirs && d < SELF_REF && ram[dir][d] % 2 == 1
    ensures ram[dir][d] / 4096 !in dirs && IsTable(ram, dirs, ram[dir][d] / 4096)
  {
    assert TableOf(ram, dir, d) == Some(ram[dir][d] / 4096);
  }

  /** Open pages that stay mapped stay open when another page is mapped. */
  lemma OpenKept(boot: Frame, ram: Ram, ram': Ram, dirs: set<Frame>, dir: Frame, n: nat, frame: Frame, j: nat)
    requires IsRam(ram) && IsRam(ram') && SpacesOk(boot, ram, dirs) && SpacesOk(boot, ram', dirs) && dir in dirs
    requires n < FRAMES && n / 1024 < SELF_REF && PageStored(ram, ram', dir, n / 1024, n % 1024, frame)
    requires IsOpen(ram, dir, j) && j / 1024 < SELF_REF && Walk(ram', dir, PageAt(j)).Some?
    ensures IsOpen(ram', dir, j)
  {
    var (d, t, e) := (n / 1024, n % 1024, j / 1024);
    var (had, tab) := (ram[dir][d] % 2 == 1, ram'[dir][d] / 4096);
    OpenMapped(ram, ram', dir, n, frame);
    TableFrame(boot, ram, dirs, dir, e);
    TableFrame(boot, ram', dirs, dir, d);
    hide SpacesOk, MapsTo;
    assert ram'[dir][e] == ram[dir][e];
    var f := ram[dir][e] / 4096;
    assert Walk(ram', dir, PageAt(j)).Some? ==> ram'[f][j % 1024] % 2 == 1;
  }

  /** Writing to a frame that is no directory and no table keeps pages open. */
  lemma OpenAfterWrite(boot: Frame, ram: Ram, dirs: set<Frame>, dir: Frame, f: Frame, content: seq<Word>, j: nat)
    requires IsRam(ram) && SpacesOk(boot, ram, dirs) && dir in dirs && |content| == ENTRIES
    requires f !in dirs && !IsTable(ram, dirs, f) && IsOpen(ram, dir, j) && j / 1024 < SELF_REF
    ensures IsOpen(PutFrame(ram, f, content), dir, j)
  {
    TableFrame(boot, ram, dirs, dir, j / 1024);
    hide SpacesOk, IsTable;
  }

  /** One more page of a run has been mapped. */
  lemma RunOpenMore(boot: Frame, ram: Ram, ram': Ram, dirs: set<Frame>, dir: Frame, b: nat, i: nat, frame: Frame)
    requires IsRam(ram) && IsRam(ram') && SpacesOk(boot, ram, dirs) && SpacesOk(boot, ram', dirs) && dir in dirs
    requires RunOpen(ram, dir, b, i) && b + i < FRAMES
    requires PageStored(ram, ram', dir, (b + i) / 1024, (b + i) % 1024, frame)
    requires forall j: nat :: b <= j <= b + i ==> PageAt(j).d < SELF_REF && Walk(ram', dir, PageAt(j)).Some?
    ensures RunOpen(ram', dir, b, i + 1)
  {
    assert PageAt(b + i).d == (b + i) / 1024;
    forall j: nat | b <= j <= b + i ensures IsOpen(ram', dir, j) {
      if j == b + i {
        OpenMapped(ram, ram', dir, j, frame);
      } else {
        assert IsOpen(ram, dir, j) && PageAt(j).d == j / 1024;
        hide IsOpen, SpacesOk, PageStored, Walk;
        OpenKept(boot, ram, ram', dirs, dir, b + i, frame, j);
      }
    }
  }

  lemma RunOpenAfterWrite(boot: Frame, ram: Ram, dirs: set<Frame>, dir: Frame, f: Frame, content: seq<Word>, b: nat,
                          count: nat)
    requires IsRam(ram) && SpacesOk(boot, ram, dirs) && dir in dirs && |content| == ENTRIES
    requires f !in dirs && !IsTable(ram, dirs, f) && RunOpen(ram, dir, b, count) && b + count <= FRAMES
    requires forall j :: b <= j < b + count ==> PageAt(j).d < SELF_REF
    ensures RunOpen(PutFrame(ram, f, content), dir, b, count)
  {
    forall j: nat | b <= j < b + count ensures IsOpen(PutFrame(ram, f, content), dir, j) {
      assert IsOpen(ram, dir, j) && PageAt(j).d == j / 1024;
      hide IsOpen, SpacesOk, PutFrame, IsTable;
      OpenAfterWrite(boot, ram, dirs, dir, f, content, j);
    }
  }
}
