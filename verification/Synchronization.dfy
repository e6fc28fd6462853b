/**
 Semaphores and mutexes under preemption. What runs with interrupts off is one step. Between
 any two steps the clock may interrupt, and so may a device, whose handler increases a
 semaphore or unblocks a thread. All other steps are the current thread's.
 */
module Synchronization {
  import opened Scheduling

  /** A semaphore: its value, its maximum, and the list of blocked threads. */
  datatype Sema = Sema(val: nat, max: nat, waiters: seq<nat>)

  /** A mutex's fields; its semaphore has the mutex's own number. */
  datatype Mutex = Mutex(holder: int, repeat: nat)

  /** No thread holds the mutex. */
  const NOBODY := -1

  /** Where a thread is in the code below; `Free` is outside. */
  datatype Place =
    | Free
    | Parked                 // blocked by `Block`, until somebody calls `Unblock`
    | InDecrease(s: nat)     // in the loop of `Decrease`, after it has blocked
    | LockDecrease(s: nat)   // before the `Decrease` of `Lock`
    | LockHolder(s: nat)     // before `holder_ = &curr_thd`
    | LockRepeat(s: nat)     // before `repeat_times_ = 1`
    | LockAgain(s: nat)      // before `++repeat_times_`
    | UnlockRepeat(s: nat)   // before `repeat_times_ = 0`
    | UnlockHolder(s: nat)   // before `holder_ = nullptr`
    | UnlockIncrease(s: nat) // before the `Increase` of `Unlock`
    | UnlockAgain(s: nat)    // before `--repeat_times_`

  /** `locks` counts the returned `Lock`s of a thread on a mutex without their matching `Unlock`s. */
  datatype Sys = Sys(sched: Sched, semas: map<nat, Sema>, mutexes: map<nat, Mutex>, place: map<nat, Place>,
                     locks: multiset<(nat, nat)>)

  /**
   What happens next. `Clock` is the clock's interrupt; `Wake` and `Increase` are a thread's or
   those of a device's interrupt handler; the rest is done by the current thread.
   */
  datatype Action =
    | Clock
    | Yield
    | Park(status: Status)
    | Wake(t: nat)
    | Create(t: nat, priority: nat)
    | Start(t: nat)
    | Idle
    | Decrease(s: nat)
    | Increase(s: nat)
    | Lock(s: nat)
    | Unlock(s: nat)
    | Next // the next statement of the call that the thread is in

  function At(st: Sys, t: nat, p: Place): Sys {
    st.(place := st.place[t := p])
  }

  // The semaphore.

  /** The thread takes the semaphore and goes on. */
  function Passed(st: Sys, t: nat, s: nat, next: Place): Sys
    requires s in st.semas && st.semas[s].val > 0
  {
    At(st, t, next).(semas := st.semas[s := st.semas[s].(val := st.semas[s].val - 1)])
  }

  /** The thread joins the wait list, while the processor goes to another. */
  function Queued(st: Sys, t: nat, s: nat, sched: Sched): Sys
    requires s in st.semas
  {
    var sema := st.semas[s];
    At(st, t, InDecrease(s)).(semas := st.semas[s := sema.(waiters := sema.waiters + [t])], sched := sched)
  }

  /** One pass of the loop of `Decrease`: take the semaphore, or wait for it and block. */
  function Decreased(st: Sys, s: nat, next: Place): Sys
    requires Consistent(st.sched) && s in st.semas
  {
    var t := st.sched.curr;
    if st.semas[s].val == 0 then Queued(st, t, s, BlockedAs(st.sched, Blocked)) else Passed(st, t, s, next)
  }

  /** The first waiter, if there is one, is parked, as `Unblock` demands. */
  ghost predicate CanWake(st: Sys, s: nat) {
    && ListsOk(st.sched) && s in st.semas
    && var waiters := st.semas[s].waiters;
      waiters != [] ==> waiters[0] in st.sched.thds && st.sched.thds[waiters[0]].status.IsParked()
  }

  /** `Increase` below the maximum: count up, and wake the first waiter, if there is one. */
  function Raised(st: Sys, s: nat): Sys
    requires CanWake(st, s)
  {
    var sema := st.semas[s];
    if sema.waiters == [] then st.(semas := st.semas[s := sema.(val := sema.val + 1)])
    else st.(semas := st.semas[s := sema.(val := sema.val + 1, waiters := sema.waiters[1..])],
             sched := Unblocked(st.sched, sema.waiters[0]))
  }

  /** `Increase` does nothing at the maximum. */
  function Increased(st: Sys, s: nat): Sys
    requires CanWake(st, s)
  {
    if st.semas[s].val == st.semas[s].max then st else Raised(st, s)
  }

  // The invariants.

  /** Each waiting thread is in one wait list, once, and blocked there. */
  ghost predicate WaitersOk(st: Sys) {
    && st.place.Keys == st.sched.thds.Keys
    && (forall s :: s in st.semas ==> NoDuplicates(st.semas[s].waiters))
    && (forall s, t :: s in st.semas && t in st.semas[s].waiters ==>
         t in st.sched.thds && st.sched.thds[t].status.Blocked? && st.place[t] == InDecrease(s) && t != st.sched.idle)
    && st.sched.idle in st.place && st.place[st.sched.idle].Free?
  }

  /** Threads are parked only where something wakes them, in a wait list, by `Park`, or idle; new ones are outside. */
  ghost predicate ParkedOk(st: Sys)
    requires st.place.Keys == st.sched.thds.Keys
  {
    && (forall t :: t in st.sched.thds && st.sched.thds[t].status.IsParked() ==> ParkedAt(st, t, st.place[t]))
    && (forall t :: t in st.sched.thds && st.sched.thds[t].status.Died? ==> st.place[t].Free?)
  }

  ghost predicate ParkedAt(st: Sys, t: nat, p: Place) {
    t == st.sched.idle || p.Parked? || (p.InDecrease? && p.s in st.semas && t in st.semas[p.s].waiters)
  }

  /** Woken threads that have not looked at the semaphore again. */
  ghost function Woken(st: Sys, s: nat): set<nat>
    requires s in st.semas
  {
    set t | t in st.place && st.place[t] == InDecrease(s) && t !in st.semas[s].waiters
  }

  /** The value is in range, and while threads wait it is no larger than the number of woken ones. */
  ghost predicate SemasOk(st: Sys) {
    forall s :: s in st.semas ==>
      && st.semas[s].val <= st.semas[s].max
      && (st.semas[s].waiters != [] ==> st.semas[s].val <= |Woken(st, s)|)
  }

  /** Between the semaphore operations of `Lock` and `Unlock`, with no lock counted. */
  predicate Inside(p: Place, s: nat) {
    p == LockHolder(s) || p == LockRepeat(s) || p == UnlockHolder(s) || p == UnlockIncrease(s)
  }

  /** The thread has passed the mutex's semaphore and has not given it back. */
  ghost predicate Owns(st: Sys, t: nat, s: nat) {
    && t in st.place
    && (st.locks[(t, s)] > 0 || Inside(st.place[t], s))
  }

  /** The semaphore of a mutex is taken exactly while one thread owns it. */
  ghost predicate OwnersOk(st: Sys) {
    && (forall s :: s in st.mutexes ==> s in st.semas && st.semas[s].max == 1)
    && (forall s, t :: s in st.mutexes && Owns(st, t, s) ==> st.semas[s].val == 0)
    && (forall s, t, u :: s in st.mutexes && Owns(st, t, s) && Owns(st, u, s) ==> t == u)
    && (forall s :: s in st.mutexes && st.semas[s].val == 0 ==> exists t :: Owns(st, t, s))
  }

  /** What the fields of a mutex are while `t` owns it. */
  ghost predicate FieldsOk(m: Mutex, t: nat, s: nat, p: Place, n: nat) {
    if p == LockHolder(s) then n == 0 && m == Mutex(NOBODY, 0)
    else if p == LockRepeat(s) then n == 0 && m == Mutex(t, 0)
    else if p == UnlockHolder(s) then n == 0 && m == Mutex(t, 0)
    else if p == UnlockIncrease(s) then n == 0 && m == Mutex(NOBODY, 0)
    else m == Mutex(t, n) && (p == UnlockRepeat(s) ==> n == 1) && (p == UnlockAgain(s) ==> n > 1)
  }

  /** A mutex is as its owner left it; without an owner it is as new. */
  ghost predicate MutexesOk(st: Sys) {
    && (forall s, t :: s in st.mutexes && Owns(st, t, s) ==>
         FieldsOk(st.mutexes[s], t, s, st.place[t], st.locks[(t, s)]))
    && (forall s :: s in st.mutexes && (forall t :: !Owns(st, t, s)) ==> st.mutexes[s] == Mutex(NOBODY, 0))
  }

  ghost predicate PlacesOk(st: Sys) {
    && (forall t :: t in st.place ==> PlaceOk(st, t, st.place[t]))
    && (forall t, s :: st.locks[(t, s)] > 0 ==> t in st.place)
  }

  /** A thread is in the code of a mutex only as an owner, or on its way to the semaphore without being one. */
  ghost predicate PlaceOk(st: Sys, t: nat, p: Place) {
    match p
    case InDecrease(s) => s in st.semas && (s in st.mutexes ==> !Owns(st, t, s))
    case LockDecrease(s) => s in st.mutexes && !Owns(st, t, s)
    case LockHolder(s) => s in st.mutexes
    case LockRepeat(s) => s in st.mutexes
    case LockAgain(s) => s in st.mutexes && Owns(st, t, s)
    case UnlockRepeat(s) => s in st.mutexes && Owns(st, t, s)
    case UnlockHolder(s) => s in st.mutexes
    case UnlockIncrease(s) => s in st.mutexes
    case UnlockAgain(s) => s in st.mutexes && Owns(st, t, s)
    case _ => true
  }

  ghost predicate Ok(st: Sys) {
    && Consistent(st.sched) && WaitersOk(st) && ParkedOk(st) && SemasOk(st)
    && OwnersOk(st) && MutexesOk(st) && PlacesOk(st)
  }

  // The steps.

  /**
   What callers must respect: plain semaphores and mutexes are apart, and only a thread that
   holds a mutex unlocks it. A thread calls from outside of all calls; the clock and the
   handlers interrupt anywhere, the idle thread and the code of `Lock` and `Unlock` included.
   */
  ghost predicate CanDo(st: Sys, a: Action)
    requires st.sched.curr in st.sched.thds && st.place.Keys == st.sched.thds.Keys
  {
    var t := st.sched.curr;
    var free := st.place[t].Free? && t != st.sched.idle;
    match a
    case Clock => true
    case Yield => free
    case Park(status) => free && status.IsParked()
    case Wake(u) => u in st.place && st.place[u].Parked? && st.sched.thds[u].status.IsParked()
    case Create(u, _) => free && u !in st.sched.thds
    case Start(u) => free && u in st.sched.thds && st.sched.thds[u].status.Died?
    case Idle => t == st.sched.idle
    case Decrease(s) => free && s in st.semas && s !in st.mutexes
    case Increase(s) => s in st.semas && s !in st.mutexes
    case Lock(s) => free && s in st.mutexes
    case Unlock(s) => free && s in st.mutexes && st.locks[(t, s)] > 0
    case Next => !st.place[t].Free? && !st.place[t].Parked?
  }

  /** `Lock` up to its first test. */
  function LockCalled(st: Sys, t: nat, s: nat): Sys
    requires s in st.mutexes
  {
    At(st, t, if st.mutexes[s].holder != t then LockDecrease(s) else LockAgain(s))
  }

  /** `Unlock` up to its first test; the caller must hold the mutex. */
  function UnlockCalled(st: Sys, t: nat, s: nat): Sys
    requires s in st.mutexes && st.mutexes[s].holder == t
  {
    At(st, t, if st.mutexes[s].repeat == 1 then UnlockRepeat(s) else UnlockAgain(s))
  }

  /** A statement of `Lock` or `Unlock` on mutex `s`: it sets the mutex's fields and the thread's count of locks. */
  function Stated(st: Sys, t: nat, s: nat, m: Mutex, n: nat, p: Place): Sys {
    st.(mutexes := st.mutexes[s := m], locks := st.locks[(t, s) := n], place := st.place[t := p])
  }

  /** What a statement of `Lock` or `Unlock` leaves: the mutex's fields, the thread's count of locks, and its place. */
  datatype Effect = Effect(m: Mutex, n: nat, p: Place)

  /** The statement at place `p`. The requirements are the assertions of the code. */
  function EffectOf(p: Place, t: nat, m: Mutex, n: nat): Effect
    requires IsStatement(p) && AssertOk(p, m, n)
  {
    match p
    case LockHolder(s) => Effect(m.(holder := t), n, LockRepeat(s))
    case LockRepeat(s) => Effect(m.(repeat := 1), n + 1, Free)
    case LockAgain(s) => Effect(m.(repeat := m.repeat + 1), n + 1, Free)
    case UnlockRepeat(s) => Effect(m.(repeat := 0), n - 1, UnlockHolder(s))
    case UnlockHolder(s) => Effect(m.(holder := NOBODY), n, UnlockIncrease(s))
    case UnlockAgain(s) => Effect(m.(repeat := m.repeat - 1), n - 1, Free)
  }

  /** A statement that does not call the semaphore. */
  predicate IsStatement(p: Place) {
    p.LockHolder? || p.LockRepeat? || p.LockAgain? || p.UnlockRepeat? || p.UnlockHolder? || p.UnlockAgain?
  }

  /** The assertions in `Lock` and `Unlock`, and that a lock given back has been counted. */
  predicate AssertOk(p: Place, m: Mutex, n: nat) {
    match p
    case LockRepeat(_) => m.repeat == 0
    case LockAgain(_) => m.repeat > 0
    case UnlockRepeat(_) => n > 0
    case UnlockAgain(_) => m.repeat > 1 && n > 0
    case _ => true
  }

  /** The next statement of the call that thread `t` is in. */
  function Advanced(st: Sys, t: nat): Sys
    requires Ok(st) && t == st.sched.curr && !st.place[t].Free? && !st.place[t].Parked?
    requires NextDefined(st, t) && Asserts(st, t)
  {
    var p := st.place[t];
    var s := p.s;
    if p.InDecrease? || p.LockDecrease? then Decreased(st, s, if s in st.mutexes then LockHolder(s) else Free)
    else if p.UnlockIncrease? then At(Increased(st, s), t, Free)
    else
      var e := EffectOf(p, t, st.mutexes[s], st.locks[(t, s)]);
      Stated(st, t, s, e.m, e.n, e.p)
  }

  /** The thread's semaphore and mutex exist, and a waiter that `Increase` would wake is parked. */
  ghost predicate NextDefined(st: Sys, t: nat)
    requires t in st.place && !st.place[t].Free? && !st.place[t].Parked?
  {
    var s := st.place[t].s;
    s in st.semas && (st.place[t].InDecrease? || s in st.mutexes) && CanWake(st, s)
  }

  ghost predicate Asserts(st: Sys, t: nat)
    requires t in st.place && !st.place[t].Free? && !st.place[t].Parked?
  {
    IsStatement(st.place[t]) ==>
      st.place[t].s in st.mutexes && AssertOk(st.place[t], st.mutexes[st.place[t].s], st.locks[(t, st.place[t].s)])
  }

  /** The assertions hold in every state that the invariants allow. */
  lemma AssertsHold(st: Sys, t: nat)
    requires Ok(st) && t == st.sched.curr && !st.place[t].Free? && !st.place[t].Parked?
    ensures NextDefined(st, t) && Asserts(st, t)
  {
    hide NoDuplicates, ParkedOk, SemasOk, Woken;
    var p := st.place[t];
    assert PlaceOk(st, t, p);
    assert p.s in st.semas;
    var waiters := st.semas[p.s].waiters;
    assert waiters != [] ==> waiters[0] in waiters;
    if p.s in st.mutexes && Owns(st, t, p.s) {
      assert FieldsOk(st.mutexes[p.s], t, p.s, p, st.locks[(t, p.s)]);
    }
  }

  /** `Unlock` finds its caller to be the holder. */
  lemma HolderUnlocks(st: Sys, s: nat)
    requires Ok(st) && s in st.mutexes && st.place[st.sched.curr].Free? && st.locks[(st.sched.curr, s)] > 0
    ensures st.mutexes[s].holder == st.sched.curr && st.mutexes[s].repeat == st.locks[(st.sched.curr, s)]
  {
    assert Owns(st, st.sched.curr, s);
  }

  /** One step of the system. */
  function Step(st: Sys, a: Action): Sys
    requires Ok(st) && CanDo(st, a)
  {
    var t := st.sched.curr;
    match a
    case Clock => st.(sched := Ticked(st.sched))
    case Yield => st.(sched := Yielded(st.sched))
    case Park(status) => At(st, t, Parked).(sched := BlockedAs(st.sched, status))
    case Wake(u) => At(st, u, Free).(sched := Unblocked(st.sched, u))
    case Create(u, priority) => At(st, u, Free).(sched := Created(st.sched, u, priority))
    case Start(u) => st.(sched := Started(st.sched, u))
    case Idle => st.(sched := BlockedAs(st.sched, Blocked))
    case Decrease(s) => Decreased(st, s, Free)
    case Increase(s) => WaiterParked(st, s); Increased(st, s)
    case Lock(s) => LockCalled(st, t, s)
    case Unlock(s) => HolderUnlocks(st, s); UnlockCalled(st, t, s)
    case Next => AssertsHold(st, t); Advanced(st, t)
  }

  /** What the next statement of `Lock` or `Unlock` does, field by field; it touches nothing else. */
  lemma StatementFields(st: Sys, t: nat)
    requires Ok(st) && t == st.sched.curr && IsStatement(st.place[t])
    ensures NextDefined(st, t) && Asserts(st, t) && FieldsSet(st, Advanced(st, t))
  {
    AssertsHold(st, t);
    hide Ok, Advanced, FieldsSet, NextDefined, Asserts;
    AdvancedFields(st, t);
  }

  ghost predicate FieldsSet(st: Sys, st': Sys) {
    var t := st.sched.curr;
    && t in st.place && t in st'.place && IsStatement(st.place[t])
    && var p := st.place[t];
      && p.s in st.mutexes && p.s in st'.mutexes
      && var (m, m', n, n') := (st.mutexes[p.s], st'.mutexes[p.s], st.locks[(t, p.s)], st'.locks[(t, p.s)]);
        && st' == st.(mutexes := st.mutexes[p.s := m'], locks := st.locks[(t, p.s) := n'],
                      place := st.place[t := st'.place[t]])
        && StatementDone(p, t, m, m', n, n', st'.place[t])
  }

  lemma AdvancedFields(st: Sys, t: nat)
    requires Ok(st) && t == st.sched.curr && IsStatement(st.place[t]) && NextDefined(st, t) && Asserts(st, t)
    ensures FieldsSet(st, Advanced(st, t))
  {
    var p := st.place[t];
    hide Ok, Decreased, Increased, NextDefined, CanWake, ListsOk, Consistent, StatementDone, EffectOf, AssertOk;
    EffectDone(p, t, st.mutexes[p.s], st.locks[(t, p.s)]);
  }

  /** The statement at place `p` on the fields of a mutex and on the count of its locks. */
  ghost predicate StatementDone(p: Place, t: nat, m: Mutex, m': Mutex, n: nat, n': nat, p': Place) {
    match p
    case LockHolder(s) => m'.holder == t && m'.repeat == m.repeat && n' == n && p' == LockRepeat(s)
    case LockRepeat(_) => m'.holder == m.holder && m'.repeat == 1 && n' == n + 1 && p'.Free?
    case LockAgain(_) => m'.holder == m.holder && m'.repeat == m.repeat + 1 && n' == n + 1 && p'.Free?
    case UnlockRepeat(s) => m'.holder == m.holder && m'.repeat == 0 && n' == n - 1 && p' == UnlockHolder(s)
    case UnlockHolder(s) => m'.holder == -1 && m'.repeat == m.repeat && n' == n && p' == UnlockIncrease(s)
    case UnlockAgain(_) => m'.holder == m.holder && m'.repeat == m.repeat - 1 && n' == n - 1 && p'.Free?
    case _ => false
  }

  lemma EffectDone(p: Place, t: nat, m: Mutex, n: nat)
    requires IsStatement(p) && AssertOk(p, m, n)
    ensures var e := EffectOf(p, t, m, n); StatementDone(p, t, m, e.m, n, e.n, e.p)
  {
  }

  lemma WaiterParked(st: Sys, s: nat)
    requires Ok(st) && s in st.semas
    ensures CanWake(st, s)
  {
    hide NoDuplicates, ParkedOk, SemasOk, OwnersOk, MutexesOk, PlacesOk, Woken;
    assert st.semas[s].waiters != [] ==> st.semas[s].waiters[0] in st.semas[s].waiters;
  }

  // Every step keeps the invariants.

  /** A change of the scheduler that parks and unparks nobody but the idle thread. */
  ghost predicate ParkingKept(s: Sched, s': Sched) {
    && s'.thds.Keys == s.thds.Keys && s'.idle == s.idle
    && (forall t :: t in s.thds && s'.thds[t].status.Died? ==> s.thds[t].status.Died?)
    && forall t :: t in s.thds && t != s.idle && (s.thds[t].status.IsParked() || s'.thds[t].status.IsParked()) ==>
         s'.thds[t].status == s.thds[t].status
  }

  /** A change of the scheduler that parks the current thread, which is not the idle one. */
  ghost predicate CurrentParked(s: Sched, s': Sched, status: Status) {
    && s'.thds.Keys == s.thds.Keys && s'.idle == s.idle && s.curr in s.thds && s'.thds[s.curr].status == status
    && (forall t :: t in s.thds && s'.thds[t].status.Died? ==> s.thds[t].status.Died?)
    && forall t ::
         t in s.thds && t != s.idle && t != s.curr && (s.thds[t].status.IsParked() || s'.thds[t].status.IsParked()) ==>
           s'.thds[t].status == s.thds[t].status
  }

  lemma ParkingKeptTrans(s0: Sched, s1: Sched, s2: Sched)
    requires ParkingKept(s0, s1) && ParkingKept(s1, s2)
    ensures ParkingKept(s0, s2)
  {
  }

  lemma PreemptedParking(s: Sched)
    requires ListsOk(s)
    ensures ParkingKept(s, Preempted(s)) && (s.thds[s.curr].status.IsParked() ==> Preempted(s) == s)
  {
    hide NoDuplicates;
  }

  lemma WithIdleParking(s: Sched)
    requires ListsOk(s) && !s.thds[s.curr].status.Running?
    ensures ParkingKept(s, WithIdle(s))
  {
    hide NoDuplicates;
  }

  lemma DispatchedParking(s: Sched)
    requires ListsOk(s) && !s.thds[s.curr].status.Running? && s.ready != []
    ensures ParkingKept(s, Dispatched(s))
  {
    assert s.ready[0] in s.ready;
    hide NoDuplicates;
  }

  lemma ScheduledParking(s: Sched)
    requires ListsOk(s)
    ensures ParkingKept(s, Scheduled(s))
    ensures s.thds[s.curr].status.IsParked() && s.curr != s.idle ==>
      Scheduled(s).thds[s.curr].status == s.thds[s.curr].status
  {
    var s1 := Preempted(s);
    PreemptedParking(s);
    var s2 := WithIdle(s1);
    WithIdleParking(s1);
    var s3 := Dispatched(s2);
    DispatchedParking(s2);
    assert s.curr in s.thds;
    hide ListsOk, NoDuplicates, Preempted, WithIdle, Dispatched;
    ParkingKeptTrans(s, s1, s2);
    ParkingKeptTrans(s, s2, s3);
  }

  lemma TickedParking(s: Sched)
    requires Consistent(s)
    ensures ParkingKept(s, Ticked(s))
  {
    ScheduledParking(Charged(s));
    hide Scheduled, Charged, NoDuplicates, ListsOk;
  }

  lemma YieldedParking(s: Sched)
    requires Consistent(s)
    ensures ParkingKept(s, Yielded(s))
  {
    hide Scheduled, NoDuplicates;
    ScheduledParking(GivingWay(s));
    hide ListsOk;
  }

  lemma BlockedParking(s: Sched, status: Status)
    requires Consistent(s) && status.IsParked()
    ensures if s.curr == s.idle then ParkingKept(s, BlockedAs(s, status))
            else CurrentParked(s, BlockedAs(s, status), status)
  {
    hide Scheduled, NoDuplicates;
    var parked := WithStatus(s, s.curr, status);
    assert ListsOk(parked);
    ScheduledParking(parked);
    hide ListsOk;
  }

  /** Outside of all calls. */
  predicate Quiet(p: Place) {
    p.Free? || p.Parked?
  }

  ghost predicate SameOwners(st: Sys, st': Sys) {
    forall t, s :: Owns(st', t, s) == Owns(st, t, s)
  }

  /** Values of the mutexes' semaphores and owners as before. */
  lemma OwnersFrame(st: Sys, st': Sys)
    requires OwnersOk(st) && SameOwners(st, st') && st'.mutexes.Keys == st.mutexes.Keys
    requires forall s :: s in st.mutexes ==>
      s in st'.semas && st'.semas[s].val == st.semas[s].val && st'.semas[s].max == st.semas[s].max
    ensures OwnersOk(st')
  {
    hide Owns;
  }

  /** One thread has moved; the others are where they were. */
  lemma PlacesFrame(st: Sys, st': Sys, u: nat, p: Place)
    requires PlacesOk(st) && SameOwners(st, st') && st'.semas.Keys == st.semas.Keys
    requires st'.mutexes.Keys == st.mutexes.Keys
    requires st'.place == st.place[u := p] && PlaceOk(st', u, p)
    requires forall t, s :: t != u ==> st'.locks[(t, s)] == st.locks[(t, s)]
    ensures PlacesOk(st')
  {
    hide Owns;
    forall t | t in st'.place ensures PlaceOk(st', t, st'.place[t]) {
      assert t != u ==> PlaceOk(st, t, st.place[t]);
    }
  }

  /** Semaphores and mutexes do not see where threads are outside of their calls. */
  lemma QuietPlace(st: Sys, st': Sys, u: nat, p: Place)
    requires SemasOk(st) && OwnersOk(st) && MutexesOk(st) && PlacesOk(st)
    requires st'.semas == st.semas && st'.mutexes == st.mutexes && st'.locks == st.locks
    requires st'.place == st.place[u := p] && Quiet(p) && (u in st.place ==> Quiet(st.place[u]))
    ensures SemasOk(st') && OwnersOk(st') && MutexesOk(st') && PlacesOk(st')
  {
    QuietSemas(st, st', u, p);
    QuietOwners(st, st', u, p);
    OwnersFrame(st, st');
    PlacesFrame(st, st', u, p);
    hide *;
    QuietFields(st, st', u, p);
  }

  lemma QuietSemas(st: Sys, st': Sys, u: nat, p: Place)
    requires SemasOk(st) && st'.semas == st.semas
    requires st'.place == st.place[u := p] && Quiet(p) && (u in st.place ==> Quiet(st.place[u]))
    ensures SemasOk(st')
  {
    assert forall s :: s in st.semas ==> Woken(st', s) == Woken(st, s);
    hide Woken;
  }

  lemma QuietFields(st: Sys, st': Sys, u: nat, p: Place)
    requires MutexesOk(st) && SameOwners(st, st') && st'.mutexes == st.mutexes && st'.locks == st.locks
    requires st'.place == st.place[u := p] && Quiet(p) && (u in st.place ==> Quiet(st.place[u]))
    ensures MutexesOk(st')
  {
  }

  lemma QuietOwners(st: Sys, st': Sys, u: nat, p: Place)
    requires PlacesOk(st) && st'.locks == st.locks
    requires st'.place == st.place[u := p] && Quiet(p) && (u in st.place ==> Quiet(st.place[u]))
    ensures SameOwners(st, st')
  {
  }

  /** Steps of the scheduler alone. */
  lemma SchedStep(st: Sys, s': Sched)
    requires Ok(st) && Consistent(s') && ParkingKept(st.sched, s')
    ensures Ok(st.(sched := s'))
  {
    hide ListsOk, NoDuplicates, SemasOk, OwnersOk, MutexesOk, PlacesOk;
    var idle := st.sched.idle;
    assert st.place[idle := Free] == st.place;
    QuietPlace(st, st.(sched := s'), idle, Free);
  }

  /** A thread parks itself by `Block`. */
  lemma ParkStep(st: Sys, s': Sched, status: Status)
    requires Ok(st) && st.place[st.sched.curr].Free? && st.sched.curr != st.sched.idle
    requires Consistent(s') && status.IsParked() && CurrentParked(st.sched, s', status)
    ensures Ok(At(st, st.sched.curr, Parked).(sched := s'))
  {
    var st' := At(st, st.sched.curr, Parked).(sched := s');
    hide ListsOk, NoDuplicates, SemasOk, OwnersOk, MutexesOk, PlacesOk;
    QuietPlace(st, st', st.sched.curr, Parked);
  }

  /** A parked thread is woken by `Unblock`. */
  lemma WakeStep(st: Sys, u: nat)
    requires Ok(st) && u in st.place && st.place[u].Parked? && st.sched.thds[u].status.IsParked()
    ensures Ok(At(st, u, Free).(sched := Unblocked(st.sched, u)))
  {
    var st' := At(st, u, Free).(sched := Unblocked(st.sched, u));
    hide NoDuplicates, SemasOk, OwnersOk, MutexesOk, PlacesOk, ParkedOk;
    assert st'.sched.thds == st.sched.thds[u := st.sched.thds[u].(status := Ready)] && st'.sched.idle == st.sched.idle;
    assert Consistent(st'.sched);
    hide ListsOk, Unblocked;
    UnparkWaiters(st, st', u);
    hide WaitersOk;
    UnparkParked(st, st', u);
    QuietPlace(st, st', u, Free);
  }

  lemma UnparkWaiters(st: Sys, st': Sys, u: nat)
    requires WaitersOk(st) && u in st.place && st.place[u].Parked?
    requires st'.place == st.place[u := Free] && st'.semas == st.semas && st'.sched.idle == st.sched.idle
    requires st'.sched.thds == st.sched.thds[u := st.sched.thds[u].(status := Ready)]
    ensures WaitersOk(st')
  {
    hide NoDuplicates;
    assert forall s, t :: s in st.semas && t in st.semas[s].waiters ==> t != u;
  }

  lemma UnparkParked(st: Sys, st': Sys, u: nat)
    requires st.place.Keys == st.sched.thds.Keys && ParkedOk(st) && u in st.place
    requires st'.place == st.place[u := Free] && st'.semas == st.semas && st'.sched.idle == st.sched.idle
    requires st'.sched.thds == st.sched.thds[u := st.sched.thds[u].(status := Ready)]
    ensures st'.place.Keys == st'.sched.thds.Keys && ParkedOk(st')
  {
  }

  lemma CreateStep(st: Sys, u: nat, priority: nat)
    requires Ok(st) && u !in st.sched.thds
    ensures Ok(At(st, u, Free).(sched := Created(st.sched, u, priority)))
  {
    var st' := At(st, u, Free).(sched := Created(st.sched, u, priority));
    hide NoDuplicates, SemasOk, OwnersOk, MutexesOk, PlacesOk, ListsOk, ParkedOk;
    assert st'.sched.thds == st.sched.thds[u := Thread(Died, priority, priority, 0)] && st'.sched.idle == st.sched.idle;
    assert Consistent(st'.sched);
    hide Created;
    CreateLists(st, st', u, priority);
    hide WaitersOk;
    QuietPlace(st, st', u, Free);
  }

  lemma CreateLists(st: Sys, st': Sys, u: nat, priority: nat)
    requires WaitersOk(st) && ParkedOk(st) && u !in st.sched.thds
    requires st'.place == st.place[u := Free] && st'.semas == st.semas && st'.sched.idle == st.sched.idle
    requires st'.sched.thds == st.sched.thds[u := Thread(Died, priority, priority, 0)]
    ensures WaitersOk(st') && ParkedOk(st')
  {
    hide NoDuplicates;
    assert forall s, t :: s in st.semas && t in st.semas[s].waiters ==> t != u;
    CreateParked(st, st', u, priority);
    hide ParkedOk;
  }

  lemma CreateParked(st: Sys, st': Sys, u: nat, priority: nat)
    requires st.place.Keys == st.sched.thds.Keys && ParkedOk(st) && u !in st.sched.thds
    requires st'.place == st.place[u := Free] && st'.semas == st.semas && st'.sched.idle == st.sched.idle
    requires st'.sched.thds == st.sched.thds[u := Thread(Died, priority, priority, 0)]
    ensures st'.place.Keys == st'.sched.thds.Keys && ParkedOk(st')
  {
  }

  lemma StartStep(st: Sys, u: nat)
    requires Ok(st) && u in st.sched.thds && st.sched.thds[u].status.Died?
    ensures Ok(st.(sched := Started(st.sched, u)))
  {
    hide NoDuplicates, SemasOk, OwnersOk, MutexesOk, PlacesOk, WaitersOk, ParkedOk;
    SchedStep(st, Started(st.sched, u));
  }

  /** The current thread is in no wait list. */
  lemma CurrentNotWaiting(st: Sys)
    requires Consistent(st.sched) && WaitersOk(st)
    ensures forall s :: s in st.semas ==> st.sched.curr !in st.semas[s].waiters
  {
  }

  /** The thread's place is outside, or in the code of mutex `s`. */
  predicate IsNear(p: Place, s: nat) {
    p.Free? || (!p.Parked? && !p.InDecrease? && p.s == s)
  }

  /**
   A statement of the current thread on mutex `s` that neither passes its semaphore nor gives
   it back. An owner must leave the fields in order, and others must not touch them.
   */
  lemma StatementStep(st: Sys, s: nat, m: Mutex, n: nat, p: Place)
    requires Ok(st) && s in st.mutexes && IsNear(st.place[st.sched.curr], s) && IsNear(p, s)
    requires st.sched.curr != st.sched.idle
    requires var t := st.sched.curr;
      && (Owns(st, t, s) <==> n > 0 || Inside(p, s))
      && (if Owns(st, t, s) then FieldsOk(m, t, s, p, n) else m == st.mutexes[s])
      && PlaceOk(Stated(st, t, s, m, n, p), t, p)
    ensures Ok(Stated(st, st.sched.curr, s, m, n, p))
  {
    var t := st.sched.curr;
    var st' := Stated(st, t, s, m, n, p);
    CurrentNotWaiting(st);
    hide ListsOk, NoDuplicates, OwnersOk, MutexesOk, PlacesOk, Owns, Inside, FieldsOk, PlaceOk;
    StatementLists(st, st', t, s, p);
    hide WaitersOk, ParkedOk, SemasOk;
    StatementSemas(st, st', t, s, p);
    StatementMutexes(st, t, s, m, n, p);
  }

  /** Wait lists do not see where a thread is in `Lock` and `Unlock`. */
  lemma StatementLists(st: Sys, st': Sys, t: nat, s: nat, p: Place)
    requires WaitersOk(st) && ParkedOk(st) && t in st.place && IsNear(st.place[t], s) && IsNear(p, s)
    requires st'.semas == st.semas && st'.sched == st.sched && st'.place == st.place[t := p]
    requires t != st.sched.idle && !st.sched.thds[t].status.IsParked() && !st.sched.thds[t].status.Died?
    ensures WaitersOk(st') && ParkedOk(st')
  {
    hide NoDuplicates;
  }

  lemma StatementSemas(st: Sys, st': Sys, t: nat, s: nat, p: Place)
    requires SemasOk(st) && t in st.place && IsNear(st.place[t], s) && IsNear(p, s)
    requires st'.semas == st.semas && st'.place == st.place[t := p]
    ensures SemasOk(st')
  {
    assert forall r :: r in st.semas ==> Woken(st', r) == Woken(st, r);
    hide Woken;
  }

  lemma StatementMutexes(st: Sys, t: nat, s: nat, m: Mutex, n: nat, p: Place)
    requires OwnersOk(st) && MutexesOk(st) && PlacesOk(st) && s in st.mutexes && t in st.place && IsNear(st.place[t], s)
    requires IsNear(p, s)
    requires Owns(st, t, s) <==> n > 0 || Inside(p, s)
    requires if Owns(st, t, s) then FieldsOk(m, t, s, p, n) else m == st.mutexes[s]
    requires PlaceOk(Stated(st, t, s, m, n, p), t, p)
    ensures var st' := Stated(st, t, s, m, n, p); OwnersOk(st') && MutexesOk(st') && PlacesOk(st')
  {
    var st' := Stated(st, t, s, m, n, p);
    StatementOwners(st, t, s, m, n, p);
    assert forall u, r :: u != t || r != s ==> st'.locks[(u, r)] == st.locks[(u, r)];
    hide Owns;
    OwnersFrame(st, st');
    PlacesFrame(st, st', t, p);
    hide OwnersOk, PlacesOk, PlaceOk, FieldsOk;
    forall r, u | r in st'.mutexes && Owns(st', u, r)
      ensures FieldsOk(st'.mutexes[r], u, r, st'.place[u], st'.locks[(u, r)])
    {
      OtherFields(st, t, s, m, n, p, u, r);
    }
    forall r | r in st'.mutexes && forall u :: !Owns(st', u, r) ensures st'.mutexes[r] == Mutex(NOBODY, 0) {
      assert !Owns(st', t, r);
      assert forall u :: !Owns(st, u, r);
    }
  }

  /** The statement does not show in the fields of other mutexes, nor in what their owners hold. */
  lemma OtherFields(st: Sys, t: nat, s: nat, m: Mutex, n: nat, p: Place, u: nat, r: nat)
    requires OwnersOk(st) && MutexesOk(st) && s in st.mutexes && r in st.mutexes && t in st.place
    requires IsNear(st.place[t], s) && IsNear(p, s) && Owns(st, u, r)
    requires if Owns(st, t, s) then FieldsOk(m, t, s, p, n) else m == st.mutexes[s]
    ensures var st' := Stated(st, t, s, m, n, p);
      u in st'.place && FieldsOk(st'.mutexes[r], u, r, st'.place[u], st'.locks[(u, r)])
  {
  }

  lemma StatementOwners(st: Sys, t: nat, s: nat, m: Mutex, n: nat, p: Place)
    requires t in st.place && IsNear(st.place[t], s) && IsNear(p, s)
    requires Owns(st, t, s) <==> n > 0 || Inside(p, s)
    ensures SameOwners(st, Stated(st, t, s, m, n, p))
  {
  }

  // Passing and giving back a semaphore.

  /** Where a thread is when it looks at the value in `Decrease`, and where it goes when it passes. */
  ghost predicate AtDecrease(st: Sys, s: nat, next: Place) {
    var (t, p) := (st.sched.curr, st.place);
    && t in p && s in st.semas && t != st.sched.idle
    && (p[t] == InDecrease(s) || p[t] == if s in st.mutexes then LockDecrease(s) else Free)
    && next == (if s in st.mutexes then LockHolder(s) else Free)
  }

  lemma PassLists(st: Sys, s: nat, next: Place)
    requires Ok(st) && AtDecrease(st, s, next) && st.semas[s].val > 0
    ensures var st' := Passed(st, st.sched.curr, s, next); WaitersOk(st') && ParkedOk(st')
  {
    hide NoDuplicates, SemasOk, OwnersOk, MutexesOk, PlacesOk;
    CurrentNotWaiting(st);
  }

  /** Passing takes one from the value, and the thread, if it had been woken, from the woken ones. */
  lemma PassSemas(st: Sys, t: nat, s: nat, next: Place)
    requires SemasOk(st) && s in st.semas && st.semas[s].val > 0 && t !in st.semas[s].waiters && !next.InDecrease?
    requires t in st.place && (st.place[t].InDecrease? ==> st.place[t].s == s)
    ensures SemasOk(Passed(st, t, s, next))
  {
    var st' := Passed(st, t, s, next);
    assert Woken(st', s) == Woken(st, s) - {t};
    assert forall r :: r in st.semas && r != s ==> Woken(st', r) == Woken(st, r);
    hide Woken;
  }

  lemma PassOwners(st: Sys, t: nat, s: nat, next: Place)
    requires t in st.place && s in st.semas && st.semas[s].val > 0 && !(exists r :: Inside(st.place[t], r))
    requires next == LockHolder(s) || next == Free
    ensures forall u, r :: Owns(Passed(st, t, s, next), u, r) <==> Owns(st, u, r) || (u == t && next == LockHolder(r))
  {
  }

  /** A mutex that nobody owned has an owner who has not touched it. */
  lemma NewOwner(st: Sys, st': Sys, t: nat, s: nat)
    requires OwnersOk(st) && MutexesOk(st) && s in st.mutexes && forall u :: !Owns(st, u, s)
    requires forall u, r :: Owns(st', u, r) <==> Owns(st, u, r) || (u == t && r == s)
    requires st'.mutexes == st.mutexes && st'.locks == st.locks && st'.place == st.place[t := LockHolder(s)]
    requires st.locks[(t, s)] == 0
    requires t in st.place && (st.place[t].LockDecrease? || st.place[t].InDecrease?)
    requires forall u, r :: Owns(st, u, r) ==> u in st.place
    requires st'.semas.Keys == st.semas.Keys && st'.semas[s].val == 0 && st'.semas[s].max == 1
    requires forall r :: r in st.semas && r != s ==> st'.semas[r] == st.semas[r]
    ensures OwnersOk(st') && MutexesOk(st')
  {
    hide Owns;
    NewOwnerOwners(st, st', t, s);
    hide OwnersOk;
    forall r, u | r in st'.mutexes && Owns(st', u, r)
      ensures FieldsOk(st'.mutexes[r], u, r, st'.place[u], st'.locks[(u, r)])
    {
      if r != s {
        assert Owns(st, u, r);
        assert FieldsOk(st.mutexes[r], u, r, st.place[u], st.locks[(u, r)]);
      }
    }
    assert Owns(st', t, s);
  }

  lemma NewOwnerOwners(st: Sys, st': Sys, t: nat, s: nat)
    requires OwnersOk(st) && s in st.mutexes && forall u :: !Owns(st, u, s)
    requires forall u, r :: Owns(st', u, r) <==> Owns(st, u, r) || (u == t && r == s)
    requires st'.mutexes == st.mutexes
    requires st'.semas.Keys == st.semas.Keys && st'.semas[s].val == 0 && st'.semas[s].max == 1
    requires forall r :: r in st.semas && r != s ==> st'.semas[r] == st.semas[r]
    ensures OwnersOk(st')
  {
    hide Owns;
    assert Owns(st', t, s);
    forall r | r in st'.mutexes && st'.semas[r].val == 0 ensures exists u :: Owns(st', u, r) {
      if r != s {
        var u :| Owns(st, u, r);
        assert Owns(st', u, r);
      }
    }
  }

  /** A thread that passes a mutex's semaphore becomes its only owner. */
  lemma PassMutex(st: Sys, t: nat, s: nat)
    requires OwnersOk(st) && MutexesOk(st) && PlacesOk(st) && s in st.mutexes && s in st.semas && st.semas[s].val == 1
    requires t in st.place && (st.place[t] == LockDecrease(s) || st.place[t] == InDecrease(s))
    ensures var st' := Passed(st, t, s, LockHolder(s)); OwnersOk(st') && MutexesOk(st') && PlacesOk(st')
  {
    var st' := Passed(st, t, s, LockHolder(s));
    PassOwners(st, t, s, LockHolder(s));
    assert st.locks[(t, s)] > 0 ==> Owns(st, t, s);
    assert forall u, r :: Owns(st, u, r) ==> u in st.place;
    hide Owns;
    assert forall u :: !Owns(st, u, s);
    NewOwner(st, st', t, s);
    hide OwnersOk, MutexesOk;
    forall u | u in st'.place ensures PlaceOk(st', u, st'.place[u]) {
      assert PlaceOk(st, u, st.place[u]);
    }
  }

  lemma PassPlain(st: Sys, t: nat, s: nat)
    requires OwnersOk(st) && MutexesOk(st) && PlacesOk(st) && s !in st.mutexes && s in st.semas && st.semas[s].val > 0
    requires t in st.place && (st.place[t] == Free || st.place[t] == InDecrease(s))
    ensures var st' := Passed(st, t, s, Free); OwnersOk(st') && MutexesOk(st') && PlacesOk(st')
  {
    var st' := Passed(st, t, s, Free);
    PassOwners(st, t, s, Free);
    hide Owns;
    OwnersFrame(st, st');
    PlacesFrame(st, st', t, Free);
    hide OwnersOk, PlacesOk, PlaceOk;
  }

  lemma PassStep(st: Sys, s: nat, next: Place)
    requires Ok(st) && AtDecrease(st, s, next) && st.semas[s].val > 0
    ensures Ok(Passed(st, st.sched.curr, s, next))
  {
    PassLists(st, s, next);
    CurrentNotWaiting(st);
    assert s in st.mutexes ==> st.semas[s].val == 1;
    hide ListsOk, NoDuplicates, WaitersOk, ParkedOk, SemasOk, OwnersOk, MutexesOk, PlacesOk;
    PassSemas(st, st.sched.curr, s, next);
    if s in st.mutexes {
      PassMutex(st, st.sched.curr, s);
    } else {
      PassPlain(st, st.sched.curr, s);
    }
  }

  // Waiting for a semaphore.

  lemma QueueLists(st: Sys, s: nat, next: Place, s': Sched)
    requires Ok(st) && AtDecrease(st, s, next) && Consistent(s') && CurrentParked(st.sched, s', Blocked)
    ensures var st' := Queued(st, st.sched.curr, s, s'); WaitersOk(st') && ParkedOk(st')
  {
    hide ListsOk, SemasOk, OwnersOk, MutexesOk, PlacesOk;
    CurrentNotWaiting(st) by {
      assert Consistent(st.sched);
    }
    Enlisted(st.semas[s].waiters, st.sched.curr);
    QueueParked(st, s, s');
    hide ParkedOk;
  }

  lemma QueueParked(st: Sys, s: nat, s': Sched)
    requires st.place.Keys == st.sched.thds.Keys && ParkedOk(st) && s in st.semas
    requires CurrentParked(st.sched, s', Blocked)
    ensures ParkedOk(Queued(st, st.sched.curr, s, s'))
  {
  }

  lemma QueueSemas(st: Sys, t: nat, s: nat, s': Sched)
    requires SemasOk(st) && s in st.semas && st.semas[s].val == 0
    requires t in st.place && (st.place[t].InDecrease? ==> st.place[t].s == s)
    ensures SemasOk(Queued(st, t, s, s'))
  {
    var st' := Queued(st, t, s, s');
    assert forall r :: r in st.semas && r != s ==> Woken(st', r) == Woken(st, r);
    hide Woken;
  }

  lemma QueueMutexes(st: Sys, s: nat, next: Place, s': Sched)
    requires OwnersOk(st) && MutexesOk(st) && PlacesOk(st) && AtDecrease(st, s, next)
    ensures var st' := Queued(st, st.sched.curr, s, s'); OwnersOk(st') && MutexesOk(st') && PlacesOk(st')
  {
    var (t, st') := (st.sched.curr, Queued(st, st.sched.curr, s, s'));
    assert PlaceOk(st, t, st.place[t]);
    QueueOwners(st, st', t, s);
    hide Owns;
    OwnersFrame(st, st');
    PlacesFrame(st, st', t, InDecrease(s));
    hide OwnersOk, PlacesOk, PlaceOk;
  }

  lemma QueueOwners(st: Sys, st': Sys, t: nat, s: nat)
    requires t in st.place && (st.place[t].Free? || st.place[t].LockDecrease? || st.place[t].InDecrease?)
    requires st'.place == st.place[t := InDecrease(s)] && st'.locks == st.locks
    ensures SameOwners(st, st')
  {
  }

  lemma QueueStep(st: Sys, s: nat, next: Place, s': Sched)
    requires Ok(st) && AtDecrease(st, s, next) && st.semas[s].val == 0 && Consistent(s')
    requires CurrentParked(st.sched, s', Blocked)
    ensures Ok(Queued(st, st.sched.curr, s, s'))
  {
    hide ListsOk, NoDuplicates, WaitersOk, ParkedOk, SemasOk, OwnersOk, MutexesOk, PlacesOk;
    QueueLists(st, s, next, s');
    QueueMutexes(st, s, next, s');
    QueueSemas(st, st.sched.curr, s, s');
  }

  /** Looking at the value in `Decrease` keeps the invariants, whether the thread passes or waits. */
  lemma DecreaseStep(st: Sys, s: nat, next: Place)
    requires Ok(st) && AtDecrease(st, s, next)
    ensures Ok(Decreased(st, s, next))
  {
    hide ListsOk, NoDuplicates, WaitersOk, ParkedOk, SemasOk, OwnersOk, MutexesOk, PlacesOk, Scheduled;
    if st.semas[s].val == 0 {
      BlockedParking(st.sched, Blocked);
      QueueStep(st, s, next, BlockedAs(st.sched, Blocked));
    } else {
      PassStep(st, s, next);
    }
  }

  // Giving back a semaphore.

  /** A list without its head. */
  lemma Popped(list: seq<nat>)
    requires NoDuplicates(list) && list != []
    ensures NoDuplicates(list[1..]) && list[0] in list && list[0] !in list[1..]
    ensures forall t :: t in list <==> t in list[1..] || t == list[0]
  {
  }

  lemma RaisedShape(st: Sys, s: nat)
    requires CanWake(st, s)
    ensures var st' := Raised(st, s);
      && st'.place == st.place && st'.mutexes == st.mutexes && st'.locks == st.locks && st'.semas.Keys == st.semas.Keys
      && st'.semas[s].val == st.semas[s].val + 1 && st'.semas[s].max == st.semas[s].max
      && (st.semas[s].waiters == [] ==> st'.semas[s].waiters == [])
      && st'.sched.idle == st.sched.idle
      && forall r :: r in st.semas && r != s ==> st'.semas[r] == st.semas[r]
  {
    hide ListsOk;
  }

  lemma RaiseLists(st: Sys, s: nat)
    requires Ok(st) && s in st.semas
    ensures CanWake(st, s) && Consistent(Raised(st, s).sched) && WaitersOk(Raised(st, s)) && ParkedOk(Raised(st, s))
  {
    hide SemasOk, OwnersOk, MutexesOk, PlacesOk, ListsOk, NoDuplicates, WaitersOk, ParkedOk;
    WaiterParked(st, s);
    if st.semas[s].waiters == [] {
      CountedLists(st, s);
    } else {
      WakeLists(st, s);
    }
  }

  lemma CountedLists(st: Sys, s: nat)
    requires Consistent(st.sched) && WaitersOk(st) && ParkedOk(st) && CanWake(st, s) && st.semas[s].waiters == []
    ensures Consistent(Raised(st, s).sched) && WaitersOk(Raised(st, s)) && ParkedOk(Raised(st, s))
  {
    hide ListsOk, NoDuplicates;
  }

  lemma WakeLists(st: Sys, s: nat)
    requires Consistent(st.sched) && WaitersOk(st) && ParkedOk(st) && CanWake(st, s) && st.semas[s].waiters != []
    ensures Consistent(Raised(st, s).sched) && WaitersOk(Raised(st, s)) && ParkedOk(Raised(st, s))
  {
    var (list, w, st') := (st.semas[s].waiters, st.semas[s].waiters[0], Raised(st, s));
    Popped(list);
    assert st'.sched.thds == st.sched.thds[w := st.sched.thds[w].(status := Ready)] && st'.sched.idle == st.sched.idle;
    assert st'.semas == st.semas[s := st'.semas[s]] && st'.semas[s].waiters == list[1..];
    assert st.place[w] == InDecrease(s);
    hide ListsOk, NoDuplicates, Raised, Unblocked;
    WakeWaiters(st, st', s, w);
    WakeParked(st, st', s, w);
  }

  lemma WakeWaiters(st: Sys, st': Sys, s: nat, w: nat)
    requires WaitersOk(st) && s in st.semas && w in st.place && st.place[w] == InDecrease(s)
    requires st'.place == st.place && st'.sched.idle == st.sched.idle && w in st.sched.thds
    requires st'.sched.thds == st.sched.thds[w := st.sched.thds[w].(status := Ready)]
    requires s in st'.semas && st'.semas == st.semas[s := st'.semas[s]] && NoDuplicates(st'.semas[s].waiters)
    requires forall t :: t in st.semas[s].waiters <==> t in st'.semas[s].waiters || t == w
    requires w !in st'.semas[s].waiters
    ensures WaitersOk(st')
  {
    hide NoDuplicates;
    forall r, t | r in st'.semas && t in st'.semas[r].waiters ensures t in st.semas[r].waiters && t != w {
    }
  }

  lemma WakeParked(st: Sys, st': Sys, s: nat, w: nat)
    requires st.place.Keys == st.sched.thds.Keys && ParkedOk(st) && s in st.semas
    requires st'.place == st.place && st'.sched.idle == st.sched.idle && w in st.sched.thds
    requires st'.sched.thds == st.sched.thds[w := st.sched.thds[w].(status := Ready)]
    requires s in st'.semas && st'.semas == st.semas[s := st'.semas[s]]
    requires forall t :: t in st.semas[s].waiters <==> t in st'.semas[s].waiters || t == w
    ensures st'.place.Keys == st'.sched.thds.Keys && ParkedOk(st')
  {
  }

  /** The value grows by one, and so does the number of woken threads while threads wait. */
  lemma RaiseSemas(st: Sys, s: nat)
    requires Ok(st) && s in st.semas && st.semas[s].val < st.semas[s].max
    ensures CanWake(st, s) && SemasOk(Raised(st, s))
  {
    hide ListsOk, NoDuplicates, ParkedOk, OwnersOk, MutexesOk, PlacesOk, WaitersOk, Raised;
    WaiterParked(st, s);
    RaisedShape(st, s);
    if st.semas[s].waiters != [] {
      WokenGrows(st, s);
    }
    hide CanWake;
    assert forall r :: r in st.semas && r != s ==> Woken(Raised(st, s), r) == Woken(st, r);
    hide Woken;
  }

  lemma WokenGrows(st: Sys, s: nat)
    requires WaitersOk(st) && CanWake(st, s) && st.semas[s].waiters != []
    ensures |Woken(Raised(st, s), s)| == |Woken(st, s)| + 1
  {
    var (list, st') := (st.semas[s].waiters, Raised(st, s));
    Popped(list);
    assert list[0] in st.place && st.place[list[0]] == InDecrease(s);
    hide ListsOk, NoDuplicates, WaitersOk;
    assert Woken(st', s) == Woken(st, s) + {list[0]} && list[0] !in Woken(st, s);
  }

  lemma IncreaseStep(st: Sys, s: nat)
    requires Ok(st) && s in st.semas && s !in st.mutexes
    ensures CanWake(st, s) && Ok(Increased(st, s))
  {
    WaiterParked(st, s);
    if st.semas[s].val < st.semas[s].max {
      RaiseLists(st, s);
      RaiseSemas(st, s);
      RaiseMutexes(st, s);
      hide ListsOk, NoDuplicates, WaitersOk, ParkedOk, SemasOk, OwnersOk, MutexesOk, PlacesOk;
    }
  }

  lemma RaiseMutexes(st: Sys, s: nat)
    requires OwnersOk(st) && MutexesOk(st) && PlacesOk(st) && s !in st.mutexes && CanWake(st, s)
    ensures OwnersOk(Raised(st, s)) && MutexesOk(Raised(st, s)) && PlacesOk(Raised(st, s))
  {
    var st' := Raised(st, s);
    hide ListsOk;
    assert SameOwners(st, st');
    hide Owns;
    OwnersFrame(st, st');
    forall t | t in st'.place ensures PlaceOk(st', t, st'.place[t]) {
      assert PlaceOk(st, t, st.place[t]);
    }
  }

  /** A mutex whose owner has given it back has no owner. */
  lemma NoOwner(st: Sys, st': Sys, t: nat, s: nat)
    requires OwnersOk(st) && MutexesOk(st) && s in st.mutexes && Owns(st, t, s) && t in st.place
    requires st.place[t] == UnlockIncrease(s)
    requires forall u, r :: Owns(st', u, r) <==> Owns(st, u, r) && !(u == t && r == s)
    requires st'.mutexes == st.mutexes && st'.locks == st.locks && st'.place == st.place[t := Free]
    requires forall u, r :: Owns(st, u, r) ==> u in st.place
    requires st'.semas.Keys == st.semas.Keys && st'.semas[s].val == 1 && st'.semas[s].max == 1
    requires forall r :: r in st.semas && r != s ==> st'.semas[r] == st.semas[r]
    ensures OwnersOk(st') && MutexesOk(st')
  {
    hide Owns;
    NoOwnerOwners(st, st', t, s);
    assert FieldsOk(st.mutexes[s], t, s, st.place[t], st.locks[(t, s)]);
    hide OwnersOk;
    forall r, u | r in st'.mutexes && Owns(st', u, r)
      ensures FieldsOk(st'.mutexes[r], u, r, st'.place[u], st'.locks[(u, r)])
    {
      assert Owns(st, u, r);
      assert FieldsOk(st.mutexes[r], u, r, st.place[u], st.locks[(u, r)]);
    }
    forall r | r in st'.mutexes && forall u :: !Owns(st', u, r) ensures st'.mutexes[r] == Mutex(NOBODY, 0) {
      if r != s {
        forall u ensures !Owns(st, u, r) {
          assert !Owns(st', u, r);
        }
      }
    }
  }

  lemma NoOwnerOwners(st: Sys, st': Sys, t: nat, s: nat)
    requires OwnersOk(st) && s in st.mutexes && Owns(st, t, s)
    requires forall u, r :: Owns(st', u, r) <==> Owns(st, u, r) && !(u == t && r == s)
    requires st'.mutexes == st.mutexes
    requires st'.semas.Keys == st.semas.Keys && st'.semas[s].val == 1 && st'.semas[s].max == 1
    requires forall r :: r in st.semas && r != s ==> st'.semas[r] == st.semas[r]
    ensures OwnersOk(st')
  {
    hide Owns;
    forall r | r in st'.mutexes && st'.semas[r].val == 0 ensures exists u :: Owns(st', u, r) {
      var u :| Owns(st, u, r);
      assert Owns(st', u, r);
    }
  }

  /** The last step of `Unlock`. */
  lemma GiveBackStep(st: Sys, s: nat)
    requires Ok(st) && s in st.mutexes && st.sched.curr in st.place && st.sched.curr != st.sched.idle
    requires st.place[st.sched.curr] == UnlockIncrease(s)
    ensures CanWake(st, s) && Ok(At(Increased(st, s), st.sched.curr, Free))
  {
    var t := st.sched.curr;
    hide ListsOk, NoDuplicates, SemasOk, OwnersOk, MutexesOk, PlacesOk, ParkedOk, Owns, CanWake, Raised;
    OwnedSema(st, t, s);
    RaiseLists(st, s);
    RaiseSemas(st, s);
    RaisedShape(st, s);
    hide WaitersOk;
    assert Increased(st, s) == Raised(st, s);
    hide Increased;
    MoveOut(st, Raised(st, s), t, s);
    MoveOutSemas(st, Raised(st, s), t, s);
    GiveBackMutexes(st, At(Raised(st, s), t, Free), t, s);
  }

  /** The semaphore of a mutex is taken while a thread has not given it back. */
  lemma OwnedSema(st: Sys, t: nat, s: nat)
    requires OwnersOk(st) && s in st.mutexes && t in st.place && st.place[t] == UnlockIncrease(s)
    ensures s in st.semas && st.semas[s].val == 0 && st.semas[s].max == 1
  {
    assert Owns(st, t, s);
  }

  /** Leaving the code of a mutex does not show in the wait lists. */
  lemma MoveOut(st: Sys, st1: Sys, t: nat, s: nat)
    requires WaitersOk(st1) && ParkedOk(st1) && st1.place == st.place
    requires t in st.place && st.place[t] == UnlockIncrease(s) && t != st1.sched.idle
    ensures var st' := At(st1, t, Free); WaitersOk(st') && ParkedOk(st')
  {
    hide NoDuplicates;
  }

  lemma MoveOutSemas(st: Sys, st1: Sys, t: nat, s: nat)
    requires SemasOk(st1) && st1.place == st.place && t in st.place && st.place[t] == UnlockIncrease(s)
    ensures SemasOk(At(st1, t, Free))
  {
    assert forall r :: r in st1.semas ==> Woken(At(st1, t, Free), r) == Woken(st1, r);
    hide Woken;
  }

  lemma GiveBackMutexes(st: Sys, st': Sys, t: nat, s: nat)
    requires OwnersOk(st) && MutexesOk(st) && PlacesOk(st) && s in st.mutexes && t in st.place
    requires st.place[t] == UnlockIncrease(s)
    requires st'.mutexes == st.mutexes && st'.locks == st.locks && st'.place == st.place[t := Free]
    requires st'.semas.Keys == st.semas.Keys && s in st.semas && st'.semas[s].val == 1 && st'.semas[s].max == 1
    requires forall r :: r in st.semas && r != s ==> st'.semas[r] == st.semas[r]
    ensures OwnersOk(st') && MutexesOk(st') && PlacesOk(st')
  {
    assert Owns(st, t, s);
    assert FieldsOk(st.mutexes[s], t, s, st.place[t], st.locks[(t, s)]);
    assert forall u, r :: Owns(st', u, r) <==> Owns(st, u, r) && !(u == t && r == s);
    assert forall u, r :: Owns(st, u, r) ==> u in st.place;
    hide Owns;
    NoOwner(st, st', t, s);
    hide OwnersOk, MutexesOk;
    forall u | u in st'.place ensures PlaceOk(st', u, st'.place[u]) {
      assert PlaceOk(st, u, st.place[u]);
    }
  }

  // Any step.

  lemma CallStep(st: Sys, s: nat, p: Place)
    requires Ok(st) && s in st.mutexes && st.place[st.sched.curr].Free? && st.sched.curr != st.sched.idle
    requires var (t, n) := (st.sched.curr, st.locks[(st.sched.curr, s)]);
      || (p == LockDecrease(s) && n == 0)
      || (p == LockAgain(s) && n > 0)
      || (p == UnlockRepeat(s) && n == 1)
      || (p == UnlockAgain(s) && n > 1)
    ensures Ok(At(st, st.sched.curr, p))
  {
    var t := st.sched.curr;
    var (m, n) := (st.mutexes[s], st.locks[(t, s)]);
    hide ListsOk, NoDuplicates, WaitersOk, ParkedOk, SemasOk;
    assert At(st, t, p) == Stated(st, t, s, m, n, p);
    assert Owns(st, t, s) <==> n > 0;
    assert Owns(st, t, s) ==> FieldsOk(m, t, s, st.place[t], n);
    hide OwnersOk, MutexesOk, PlacesOk;
    StatementStep(st, s, m, n, p);
  }

  /** What `Lock` finds in `holder_`: the caller, exactly when it has locks. */
  lemma HolderFound(st: Sys, s: nat)
    requires Ok(st) && s in st.mutexes && st.place[st.sched.curr].Free?
    ensures st.mutexes[s].holder == st.sched.curr <==> st.locks[(st.sched.curr, s)] > 0
    ensures st.locks[(st.sched.curr, s)] > 0 ==> st.mutexes[s].repeat == st.locks[(st.sched.curr, s)]
  {
    var t := st.sched.curr;
    hide ListsOk, NoDuplicates, WaitersOk, ParkedOk, SemasOk;
    assert Owns(st, t, s) <==> st.locks[(t, s)] > 0;
    hide Owns;
    if Owns(st, t, s) {
      assert FieldsOk(st.mutexes[s], t, s, st.place[t], st.locks[(t, s)]);
    } else if exists u :: Owns(st, u, s) {
      var u :| Owns(st, u, s);
      assert FieldsOk(st.mutexes[s], u, s, st.place[u], st.locks[(u, s)]);
    }
  }

  /** The next statement of a call keeps the invariants. */
  lemma NextStep(st: Sys)
    requires Ok(st) && !st.place[st.sched.curr].Free? && !st.place[st.sched.curr].Parked?
    ensures NextDefined(st, st.sched.curr) && Asserts(st, st.sched.curr) && Ok(Advanced(st, st.sched.curr))
  {
    var t := st.sched.curr;
    var p := st.place[t];
    var s := p.s;
    AssertsHold(st, t);
    assert t != st.sched.idle;
    assert PlaceOk(st, t, p);
    if p.InDecrease? || p.LockDecrease? {
      DecreaseStep(st, s, if s in st.mutexes then LockHolder(s) else Free);
    } else if p.UnlockIncrease? {
      GiveBackStep(st, s);
    } else {
      StatementNext(st);
    }
  }

  lemma StatementNext(st: Sys)
    requires Ok(st) && st.sched.curr != st.sched.idle && IsStatement(st.place[st.sched.curr])
    requires NextDefined(st, st.sched.curr) && Asserts(st, st.sched.curr)
    ensures Ok(Advanced(st, st.sched.curr))
  {
    var (t, p) := (st.sched.curr, st.place[st.sched.curr]);
    var s := p.s;
    OwnerFields(st, p, s);
    EffectInOrder(p, t, s, st.mutexes[s], st.locks[(t, s)]);
    var e := EffectOf(p, t, st.mutexes[s], st.locks[(t, s)]);
    hide ListsOk, NoDuplicates, WaitersOk, ParkedOk, SemasOk, OwnersOk, MutexesOk, PlacesOk, EffectOf, FieldsOk,
      CanWake, Owns, Inside;
    StatementStep(st, s, e.m, e.n, e.p);
  }

  lemma OwnerFields(st: Sys, p: Place, s: nat)
    requires Ok(st) && s in st.mutexes && p == st.place[st.sched.curr] && IsStatement(p) && p.s == s
    ensures var t := st.sched.curr; Owns(st, t, s) && FieldsOk(st.mutexes[s], t, s, p, st.locks[(t, s)])
  {
    hide NoDuplicates, ParkedOk, SemasOk, OwnersOk;
    assert PlaceOk(st, st.sched.curr, p);
    assert Owns(st, st.sched.curr, s);
  }

  /** An owner's statement leaves the fields in order for the place it goes to, and the thread still an owner. */
  lemma EffectInOrder(p: Place, t: nat, s: nat, m: Mutex, n: nat)
    requires IsStatement(p) && p.s == s && AssertOk(p, m, n) && FieldsOk(m, t, s, p, n) && (n > 0 || Inside(p, s))
    ensures var e := EffectOf(p, t, m, n);
      && FieldsOk(e.m, t, s, e.p, e.n) && (e.n > 0 || Inside(e.p, s)) && IsNear(e.p, s)
      && (e.p.Free? || e.p.LockRepeat? || e.p.UnlockHolder? || e.p.UnlockIncrease?)
  {
  }

  /** Every step keeps every invariant, whatever the other threads are in the middle of. */
  lemma StepKeepsOk(st: Sys, a: Action)
    requires Ok(st) && CanDo(st, a)
    ensures Ok(Step(st, a))
  {
    hide NoDuplicates, SemasOk, OwnersOk, MutexesOk, PlacesOk, ParkedOk, Scheduled, Woken;
    var t := st.sched.curr;
    match a
    case Clock => TickedParking(st.sched); SchedStep(st, Ticked(st.sched));
    case Yield => YieldedParking(st.sched); SchedStep(st, Yielded(st.sched));
    case Park(status) => BlockedParking(st.sched, status); ParkStep(st, BlockedAs(st.sched, status), status);
    case Wake(u) => WakeStep(st, u);
    case Create(u, priority) => CreateStep(st, u, priority);
    case Start(u) => StartStep(st, u);
    case Idle => BlockedParking(st.sched, Blocked); SchedStep(st, BlockedAs(st.sched, Blocked));
    case Decrease(s) => DecreaseStep(st, s, Free);
    case Increase(s) => IncreaseStep(st, s);
    case Lock(s) =>
      HolderFound(st, s);
      CallStep(st, s, if st.mutexes[s].holder != t then LockDecrease(s) else LockAgain(s));
    case Unlock(s) =>
      HolderFound(st, s);
      CallStep(st, s, if st.mutexes[s].repeat == 1 then UnlockRepeat(s) else UnlockAgain(s));
    case Next => NextStep(st);
  }

  // Runs.

  /** The start: the main thread runs, the idle thread is ready, and nothing has been used yet. */
  ghost predicate IsInitial(st: Sys) {
    && Consistent(st.sched) && st.place.Keys == st.sched.thds.Keys
    && (forall t :: t in st.sched.thds ==>
         st.place[t].Free? && (st.sched.thds[t].status.Running? || st.sched.thds[t].status.Ready?))
    && (forall s :: s in st.semas ==> st.semas[s].val <= st.semas[s].max && st.semas[s].waiters == [])
    && (forall s :: s in st.mutexes ==>
         s in st.semas && st.semas[s] == Sema(1, 1, []) && st.mutexes[s] == Mutex(NOBODY, 0))
    && st.locks == multiset{}
  }

  lemma InitialOk(st: Sys)
    requires IsInitial(st)
    ensures Ok(st)
  {
  }

  ghost predicate IsRun(states: seq<Sys>, actions: seq<Action>) {
    && |states| == |actions| + 1 && IsInitial(states[0])
    && forall i :: 0 <= i < |actions| ==> IsStep(states[i], actions[i], states[i + 1])
  }

  /** `Step` is defined where the invariants hold, which is shown for every state of a run and not assumed. */
  ghost predicate IsStep(st: Sys, a: Action, st': Sys) {
    Ok(st) ==> CanDo(st, a) && st' == Step(st, a)
  }

  /**
   Every state of every run keeps all invariants: interleavings are arbitrary, since the clock and the devices may
   interrupt between any two steps.
   */
  lemma {:induction false} RunsStayOk(states: seq<Sys>, actions: seq<Action>, i: nat)
    requires IsRun(states, actions) && i < |states|
    ensures Ok(states[i])
  {
    if i == 0 {
      InitialOk(states[0]);
    } else {
      RunsStayOk(states, actions, i - 1);
      assert IsStep(states[i - 1], actions[i - 1], states[i]);
      StepKeepsOk(states[i - 1], actions[i - 1]);
    }
  }

  /**
   No lost wake-up: while threads wait for a semaphore, at least as many woken ones as its value
   are about to look at it again, and each of them can run.
   */
  lemma NoLostWakeUp(states: seq<Sys>, actions: seq<Action>, i: nat, s: nat)
    requires IsRun(states, actions) && i < |states| && s in states[i].semas
    ensures var st := states[i];
      && st.semas[s].val <= st.semas[s].max
      && (st.semas[s].waiters != [] ==> st.semas[s].val <= |Woken(st, s)|)
      && (st.semas[s].waiters != [] && st.semas[s].val > 0 ==>
            exists t :: t in Woken(st, s))
      && (forall t :: t in Woken(st, s) ==> t in st.sched.thds && (t in st.sched.ready || t == st.sched.curr))
  {
    RunsStayOk(states, actions, i);
    var st := states[i];
    if st.semas[s].waiters != [] && st.semas[s].val > 0 {
      assert |Woken(st, s)| > 0;
      var t :| t in Woken(st, s);
    }
    forall t | t in Woken(st, s) ensures t in st.sched.thds && (t in st.sched.ready || t == st.sched.curr) {
      WokenCanRun(st, s, t);
    }
  }

  /** A woken thread is in the ready list or on the processor. */
  lemma WokenCanRun(st: Sys, s: nat, t: nat)
    requires Ok(st) && s in st.semas && t in Woken(st, s)
    ensures t in st.sched.thds && (t in st.sched.ready || t == st.sched.curr)
  {
    hide NoDuplicates, SemasOk, OwnersOk, MutexesOk, PlacesOk;
  }

  /** Mutual exclusion: the holder of a mutex is the one thread with locks on it, and it is counted right. */
  lemma MutualExclusion(states: seq<Sys>, actions: seq<Action>, i: nat, s: nat, t: nat, u: nat)
    requires IsRun(states, actions) && i < |states| && s in states[i].mutexes
    requires states[i].locks[(t, s)] > 0
    ensures states[i].locks[(u, s)] > 0 ==> u == t
    ensures s in states[i].semas && states[i].mutexes[s].holder == t && states[i].semas[s].val == 0
    ensures t in states[i].place
    ensures (states[i].place[t].Free? ==> states[i].mutexes[s].repeat == states[i].locks[(t, s)])
  {
    RunsStayOk(states, actions, i);
    var st := states[i];
    hide ListsOk, NoDuplicates, WaitersOk, ParkedOk, SemasOk;
    assert Owns(st, t, s);
    assert FieldsOk(st.mutexes[s], t, s, st.place[t], st.locks[(t, s)]);
    if st.locks[(u, s)] > 0 {
      assert Owns(st, u, s);
    }
  }

  /** `Unlock` starts to give the mutex back exactly when it matches the first of the caller's locks. */
  lemma LastUnlockReleases(states: seq<Sys>, actions: seq<Action>, i: nat, s: nat)
    requires IsRun(states, actions) && i < |actions| && actions[i] == Unlock(s)
    ensures var (st, st') := (states[i], states[i + 1]);
      && st.sched.curr in st'.place && st.locks[(st.sched.curr, s)] > 0
      && st'.place[st.sched.curr] == (if st.locks[(st.sched.curr, s)] == 1 then UnlockRepeat(s) else UnlockAgain(s))
  {
    RunsStayOk(states, actions, i);
    assert IsStep(states[i], actions[i], states[i + 1]);
    HolderFound(states[i], s);
  }
}
