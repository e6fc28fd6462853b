/** How many frames for page tables a run of user pages costs. */
module TableNeeds {
  import opened Wrappers
  import opened BitRuns
  import opened PageTables
  import opened MemoryUnit
  import opened MemoryInvariant

  /** One of the pages `b`, ..., `b + n - 1` lies in directory slot `d`. */
  ghost predicate Touches(b: nat, n: nat, d: nat) {
    exists j :: b <= j < b + n && j < FRAMES && PageAt(j).d == d
  }

  /** The directory slots without a table that the pages `b`, ..., `b + n - 1` lie in. */
  ghost function SlotsMissing(ram: Ram, cr3: Frame, b: nat, n: nat): set<nat>
    requires IsRam(ram)
  {
    set d | 0 <= d < SELF_REF && TableOf(ram, cr3, d).None? && Touches(b, n, d)
  }

  /** The pages of a run of `count` for which there are frames. */
  function Backed(pools: Pools, kind: PoolType, count: nat): nat {
    var free := CountFree(MemPool(pools, kind).bits);
    if count <= free then count else free
  }

  /** The kernel's frames do not suffice for the tables of the pages of a run that have frames. */
  ghost predicate TablesShort(ram: Ram, pools: Pools, kind: PoolType, cr3: Frame, b: nat, count: nat)
    requires IsRam(ram)
  {
    |SlotsMissing(ram, cr3, b, Backed(pools, kind, count))| > CountFree(pools.krnlMem.bits)
  }

  /** The kernel frames that the first `i` pages of a run have cost, and the tables that are there now. */
  ghost predicate TablesSpent(ram0: Ram, ram: Ram, pools0: Pools, pools: Pools, kind: PoolType, cr3: Frame, b: nat,
                              i: nat)
    requires IsRam(ram0) && IsRam(ram)
  {
    && CountFree(pools.krnlMem.bits) + |SlotsMissing(ram0, cr3, b, i)| + (if kind.Kernel? then i else 0)
         == CountFree(pools0.krnlMem.bits)
    && forall d :: 0 <= d < SELF_REF ==>
         (TableOf(ram, cr3, d).Some? <==> TableOf(ram0, cr3, d).Some? || Touches(b, i, d))
  }

  lemma TouchesStep(b: nat, n: nat, d: nat)
    requires b + n < FRAMES
    ensures Touches(b, n + 1, d) <==> Touches(b, n, d) || PageAt(b + n).d == d
  {
    hide PageAt;
    if Touches(b, n + 1, d) {
      var j :| b <= j < b + n + 1 && j < FRAMES && PageAt(j).d == d;
      assert j < b + n ==> Touches(b, n, d);
    }
    if Touches(b, n, d) {
      var j :| b <= j < b + n && j < FRAMES && PageAt(j).d == d;
      assert Touches(b, n + 1, d);
    }
  }

  /** One more page adds its slot, if that has no table and no page before lies in it. */
  lemma MissingGrows(ram: Ram, cr3: Frame, b: nat, n: nat)
    requires IsRam(ram) && b + n < FRAMES && PageAt(b + n).d < SELF_REF
    ensures var d := PageAt(b + n).d;
      |SlotsMissing(ram, cr3, b, n + 1)| ==
        |SlotsMissing(ram, cr3, b, n)| + (if TableOf(ram, cr3, d).None? && !Touches(b, n, d) then 1 else 0)
  {
    var d := PageAt(b + n).d;
    var (before, after) := (SlotsMissing(ram, cr3, b, n), SlotsMissing(ram, cr3, b, n + 1));
    hide IsRam, TableOf, Touches, PageAt;
    forall e: nat ensures Touches(b, n + 1, e) <==> Touches(b, n, e) || e == d {
      TouchesStep(b, n, e);
    }
    if TableOf(ram, cr3, d).None? {
      assert after == before + {d};
      assert d in before <==> Touches(b, n, d);
    } else {
      assert after == before;
    }
  }

  lemma MissingMonotone(ram: Ram, cr3: Frame, b: nat, n: nat, more: nat)
    requires IsRam(ram) && n <= more
    ensures |SlotsMissing(ram, cr3, b, n)| <= |SlotsMissing(ram, cr3, b, more)|
  {
    var (fewer, all) := (SlotsMissing(ram, cr3, b, n), SlotsMissing(ram, cr3, b, more));
    hide IsRam, TableOf, PageAt;
    assert fewer <= all;
    assert all == fewer + (all - fewer);
  }

  lemma NothingSpent(ram: Ram, pools: Pools, kind: PoolType, cr3: Frame, b: nat)
    requires IsRam(ram)
    ensures TablesSpent(ram, ram, pools, pools, kind, cr3, b, 0)
  {
    assert SlotsMissing(ram, cr3, b, 0) == {};
  }

  lemma SpentMore(ram0: Ram, ram1: Ram, ram2: Ram, pools0: Pools, pools1: Pools, pools2: Pools,
                  kind: PoolType, cr3: Frame, b: nat, i: nat)
    requires IsRam(ram0) && IsRam(ram1) && IsRam(ram2) && b + i < FRAMES && PageAt(b + i).d < SELF_REF
    requires TablesSpent(ram0, ram1, pools0, pools1, kind, cr3, b, i)
    requires CountFree(pools1.krnlMem.bits) == CountFree(pools2.krnlMem.bits)
      + (if TableOf(ram1, cr3, PageAt(b + i).d).None? then 1 else 0) + (if kind.Kernel? then 1 else 0)
    requires forall d :: 0 <= d < SELF_REF ==>
      (TableOf(ram2, cr3, d).Some? <==> TableOf(ram1, cr3, d).Some? || d == PageAt(b + i).d)
    ensures TablesSpent(ram0, ram2, pools0, pools2, kind, cr3, b, i + 1)
  {
    MissingGrows(ram0, cr3, b, i);
    hide IsRam, TableOf, Touches, PageAt, CountFree, SlotsMissing;
    forall d: nat ensures Touches(b, i + 1, d) <==> Touches(b, i, d) || d == PageAt(b + i).d {
      TouchesStep(b, i, d);
    }
  }

  /** No frame is left for the table of page `i`, which has a frame: the kernel's frames do not suffice. */
  lemma StopsShort(ram0: Ram, ram: Ram, pools0: Pools, pools: Pools, kind: PoolType, cr3: Frame, b: nat, count: nat,
                   i: nat)
    requires IsRam(ram0) && IsRam(ram) && b + i < FRAMES && PageAt(b + i).d < SELF_REF
    requires i < Backed(pools0, kind, count)
    requires TablesSpent(ram0, ram, pools0, pools, kind, cr3, b, i) && kind.User?
    requires TableOf(ram, cr3, PageAt(b + i).d).None? && CountFree(pools.krnlMem.bits) == 0
    ensures TablesShort(ram0, pools0, kind, cr3, b, count)
  {
    MissingGrows(ram0, cr3, b, i);
    MissingMonotone(ram0, cr3, b, i + 1, Backed(pools0, kind, count));
    hide IsRam, TableOf, Touches, PageAt, CountFree, SlotsMissing, Backed;
  }

  /** A loop that backed all pages that have frames had enough for the tables. */
  lemma NotShort(ram0: Ram, ram: Ram, pools0: Pools, pools: Pools, kind: PoolType, cr3: Frame, b: nat, count: nat,
                 i: nat)
    requires IsRam(ram0) && IsRam(ram) && i == Backed(pools0, kind, count)
    requires TablesSpent(ram0, ram, pools0, pools, kind, cr3, b, i)
    ensures !TablesShort(ram0, pools0, kind, cr3, b, count)
  {
  }
}
