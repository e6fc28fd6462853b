/** The round-robin scheduler of one processor: the ready list and the states of the threads. */
module Scheduling {
  datatype Status = Died | Ready | Running | Blocked | Waiting | Hanging {
    predicate IsParked() {
      Blocked? || Waiting? || Hanging?
    }
  }

  datatype Thread = Thread(status: Status, priority: nat, remain: nat, elapsed: nat)

  /** Threads are named by numbers; `curr` is the one on the processor. */
  datatype Sched = Sched(thds: map<nat, Thread>, ready: seq<nat>, curr: nat, idle: nat)

  function WithStatus(s: Sched, t: nat, status: Status): Sched
    requires t in s.thds
  {
    s.(thds := s.thds[t := s.thds[t].(status := status)])
  }

  ghost predicate NoDuplicates(list: seq<nat>) {
    forall i, j :: 0 <= i < j < |list| ==> list[i] != list[j]
  }

  /**
   The ready list holds exactly the ready threads, once each, and no thread but the current
   one can be running. The idle thread has been started.
   */
  ghost predicate ListsOk(s: Sched) {
    && s.curr in s.thds && s.idle in s.thds && !s.thds[s.idle].status.Died?
    && NoDuplicates(s.ready)
    && (forall t :: t in s.ready ==> t in s.thds)
    && (forall t :: t in s.thds ==> (t in s.ready <==> s.thds[t].status.Ready?))
    && (forall t :: t in s.thds && s.thds[t].status.Running? ==> t == s.curr)
  }

  /** Between two steps, the current thread is the running one. */
  ghost predicate Consistent(s: Sched) {
    ListsOk(s) && s.thds[s.curr].status.Running?
  }

  /** `Unblock`: the thread goes to the front. The requirements are the assertions of the code. */
  function Unblocked(s: Sched, t: nat): (r: Sched)
    requires ListsOk(s) && t in s.thds && s.thds[t].status.IsParked()
    ensures ListsOk(r) && t !in s.ready && r.ready == [t] + s.ready
    ensures Consistent(s) ==> Consistent(r)
  {
    WithStatus(s, t, Ready).(ready := [t] + s.ready)
  }

  /** A running thread that is preempted goes to the back with its ticks restored. */
  function Preempted(s: Sched): (r: Sched)
    requires ListsOk(s)
    ensures ListsOk(r) && !r.thds[r.curr].status.Running? && r.curr == s.curr && r.idle == s.idle
    ensures r.ready == if s.thds[s.curr].status.Running? then s.ready + [s.curr] else s.ready
  {
    var thd := s.thds[s.curr];
    if thd.status.Running? then
      Enlisted(s.ready, s.curr);
      s.(thds := s.thds[s.curr := thd.(status := Ready, remain := thd.priority)], ready := s.ready + [s.curr])
    else s
  }

  lemma Enlisted(list: seq<nat>, t: nat)
    requires NoDuplicates(list) && t !in list
    ensures NoDuplicates(list + [t])
    ensures forall u :: u in list + [t] <==> u in list || u == t
  {
  }

  /** The idle thread when nothing is ready: it is parked, so `Unblock` accepts it. */
  lemma IdleParked(s: Sched)
    requires ListsOk(s) && !s.thds[s.curr].status.Running? && s.ready == []
    ensures s.thds[s.idle].status.IsParked() && s.idle !in s.ready
  {
  }

  /** The idle thread is unblocked when nothing else is ready. */
  function WithIdle(s: Sched): (r: Sched)
    requires ListsOk(s) && !s.thds[s.curr].status.Running?
    ensures ListsOk(r) && r.ready == (if s.ready == [] then [s.idle] else s.ready) && r.curr == s.curr
    ensures !r.thds[r.curr].status.Running?
  {
    if s.ready == [] then IdleParked(s); Unblocked(s, s.idle) else s
  }

  /** The head of the ready list gets the processor. */
  function Dispatched(s: Sched): (r: Sched)
    requires ListsOk(s) && !s.thds[s.curr].status.Running? && s.ready != []
    ensures Consistent(r) && r.curr == s.ready[0] && r.ready == s.ready[1..]
  {
    WithStatus(s, s.ready[0], Running).(ready := s.ready[1..], curr := s.ready[0])
  }

  /** `Schedule`: the head of the ready list, or the idle thread, gets the processor. */
  function Scheduled(s: Sched): (r: Sched)
    requires ListsOk(s)
    ensures Consistent(r)
    ensures var list := Preempted(s).ready;
      r.curr == (if list == [] then s.idle else list[0]) && r.ready == (if list == [] then [] else list[1..])
    ensures forall t :: t in s.thds <==> t in r.thds
    ensures forall t :: t in s.thds && t != s.curr && t != r.curr ==> r.thds[t] == s.thds[t]
    ensures forall t :: t in s.thds && t != s.curr ==> r.thds[t] == s.thds[t].(status := r.thds[t].status)
    ensures r.thds[s.curr].priority == s.thds[s.curr].priority
    ensures r.thds[s.curr].remain ==
      if s.thds[s.curr].status.Running? then s.thds[s.curr].priority else s.thds[s.curr].remain
  {
    hide NoDuplicates, ListsOk;
    Dispatched(WithIdle(Preempted(s)))
  }

  /**
   The processor has gone to the head of `list`, or to the idle thread when that is empty. The
   thread that had it is now `thd`, unless it runs on; no other thread has changed.
   */
  ghost predicate SwitchedTo(s: Sched, s': Sched, thd: Thread, list: seq<nat>) {
    && s'.idle == s.idle && s'.thds.Keys == s.thds.Keys
    && s'.curr == (if list == [] then s.idle else list[0])
    && s'.ready == (if list == [] then [] else list[1..])
    && forall t :: t in s.thds ==>
         s'.thds[t] == (if t == s.curr then thd else s.thds[t]).(status := StatusAfter(s, s', thd, t))
  }

  ghost function StatusAfter(s: Sched, s': Sched, thd: Thread, t: nat): Status
    requires t in s.thds
  {
    if t == s'.curr then Running else if t == s.curr then thd.status else s.thds[t].status
  }

  /** What `Schedule` leaves: a running thread is listed last with its ticks restored, a parked one just leaves. */
  lemma ScheduledSwitches(s: Sched)
    requires ListsOk(s)
    ensures var thd := s.thds[s.curr];
      if thd.status.Running? then
        SwitchedTo(s, Scheduled(s), thd.(status := Ready, remain := thd.priority), s.ready + [s.curr])
      else SwitchedTo(s, Scheduled(s), thd, s.ready)
  {
  }

  /** `Block`: the current thread leaves the processor and the lists. */
  function BlockedAs(s: Sched, status: Status): (r: Sched)
    requires Consistent(s) && status.IsParked()
    ensures Consistent(r)
  {
    Scheduled(WithStatus(s, s.curr, status))
  }

  /** A thread that blocks keeps its ticks and is not listed. */
  lemma BlockedSwitches(s: Sched, status: Status)
    requires Consistent(s) && status.IsParked()
    ensures SwitchedTo(s, BlockedAs(s, status), s.thds[s.curr].(status := status), s.ready)
  {
    ScheduledSwitches(WithStatus(s, s.curr, status));
    hide Scheduled, ListsOk, NoDuplicates;
  }

  /** `Yield`: the current thread goes to the back and keeps its ticks. */
  function GivingWay(s: Sched): (r: Sched)
    requires Consistent(s)
    ensures ListsOk(r) && r.ready == s.ready + [s.curr] && r.curr == s.curr && r.idle == s.idle
    ensures !r.thds[r.curr].status.Running?
  {
    Enlisted(s.ready, s.curr);
    WithStatus(s, s.curr, Ready).(ready := s.ready + [s.curr])
  }

  function Yielded(s: Sched): (r: Sched)
    requires Consistent(s)
    ensures Consistent(r)
  {
    Scheduled(GivingWay(s))
  }

  lemma YieldedSwitches(s: Sched)
    requires Consistent(s)
    ensures SwitchedTo(s, Yielded(s), s.thds[s.curr].(status := Ready), s.ready + [s.curr])
  {
    ScheduledSwitches(GivingWay(s));
    hide Scheduled, ListsOk, NoDuplicates;
  }

  /** The current thread charged for a tick; only a thread with ticks left loses one. */
  function Charged(s: Sched): (r: Sched)
    requires Consistent(s)
    ensures Consistent(r) && r.curr == s.curr && r.idle == s.idle && r.ready == s.ready && r.thds.Keys == s.thds.Keys
    ensures forall t :: t in s.thds ==> r.thds[t].status == s.thds[t].status
  {
    var thd := s.thds[s.curr];
    var left := if thd.remain != 0 then thd.remain - 1 else 0;
    s.(thds := s.thds[s.curr := thd.(elapsed := thd.elapsed + 1, remain := left)])
  }

  lemma ChargedThread(s: Sched)
    requires Consistent(s)
    ensures var thd := s.thds[s.curr];
      Charged(s) == s.(thds := s.thds[s.curr := thd.(elapsed := thd.elapsed + 1,
                                                     remain := if thd.remain != 0 then thd.remain - 1 else 0)])
  {
  }

  /** The clock interrupt: a thread without ticks left is preempted. */
  function Ticked(s: Sched): (r: Sched)
    requires Consistent(s)
    ensures Consistent(r)
  {
    if s.thds[s.curr].remain != 0 then Charged(s) else Scheduled(Charged(s))
  }

  /** A thread with ticks left has lost one of them and runs on; one without has gone to the back with all of them. */
  ghost predicate TickedTo(s: Sched, s': Sched) {
    s.curr in s.thds &&
    var thd := s.thds[s.curr];
    if thd.remain != 0 then
      s' == s.(thds := s.thds[s.curr := thd.(elapsed := thd.elapsed + 1, remain := thd.remain - 1)])
    else
      SwitchedTo(s, s', thd.(status := Ready, elapsed := thd.elapsed + 1, remain := thd.priority), s.ready + [s.curr])
  }

  lemma TickedSwitches(s: Sched)
    requires Consistent(s)
    ensures TickedTo(s, Ticked(s))
  {
    if s.thds[s.curr].remain == 0 {
      ScheduledSwitches(Charged(s));
    }
    hide Scheduled, ListsOk, NoDuplicates;
  }

  /** `Init` of a new thread, which is not ready to run yet. */
  function Created(s: Sched, t: nat, priority: nat): (r: Sched)
    requires Consistent(s) && t !in s.thds
    ensures Consistent(r)
  {
    s.(thds := s.thds[t := Thread(Died, priority, priority, 0)])
  }

  /** `Start`: a new thread goes to the back. */
  function Started(s: Sched, t: nat): (r: Sched)
    requires Consistent(s) && t in s.thds && s.thds[t].status.Died?
    ensures Consistent(r)
  {
    Enlisted(s.ready, t);
    WithStatus(s, t, Ready).(ready := s.ready + [t])
  }

  /** The scheduler as it works: each method changes the lists and the threads step by step. */
  class Scheduler {
    var thds: map<nat, Thread>
    var ready: seq<nat>
    var curr: nat
    const idle: nat

    function State(): Sched
      reads this
    {
      Sched(thds, ready, curr, idle)
    }

    /** The main thread is running already and the idle thread has been started. */
    constructor (main: nat, idle: nat, mainPriority: nat, idlePriority: nat)
      requires main != idle
      ensures Consistent(State()) && curr == main && ready == [idle] && this.idle == idle
      ensures thds == map[main := Thread(Running, mainPriority, mainPriority, 0),
                          idle := Thread(Ready, idlePriority, idlePriority, 0)]
    {
      this.idle := idle;
      curr := main;
      ready := [idle];
      thds := map[main := Thread(Running, mainPriority, mainPriority, 0),
                  idle := Thread(Ready, idlePriority, idlePriority, 0)];
    }

    method SetStatus(t: nat, status: Status)
      requires t in thds
      modifies this`thds
      ensures State() == WithStatus(old(State()), t, status)
    {
      thds := thds[t := thds[t].(status := status)];
    }

    method Unblock(t: nat)
      requires ListsOk(State()) && t in thds && thds[t].status.IsParked()
      modifies this`thds, this`ready
      ensures State() == Unblocked(old(State()), t)
      ensures ready == [t] + old(ready) && thds == old(thds)[t := old(thds)[t].(status := Ready)]
    {
      assert t !in ready;
      SetStatus(t, Ready);
      ready := [t] + ready;
    }

    method ResetTicks()
      requires curr in thds
      modifies this`thds
      ensures thds == old(thds)[curr := old(thds)[curr].(remain := old(thds)[curr].priority)]
    {
      thds := thds[curr := thds[curr].(remain := thds[curr].priority)];
    }

    method Schedule()
      requires ListsOk(State())
      modifies this`thds, this`ready, this`curr
      ensures State() == Scheduled(old(State()))
      ensures var thd := old(thds)[old(curr)];
        if thd.status.Running? then
          SwitchedTo(old(State()), State(), thd.(status := Ready, remain := thd.priority), old(ready) + [old(curr)])
        else SwitchedTo(old(State()), State(), thd, old(ready))
    {
      ScheduledSwitches(State());
      if thds[curr].status.Running? {
        assert curr !in ready;
        ResetTicks();
        SetStatus(curr, Ready);
        ready := ready + [curr];
      }
      assert State() == Preempted(old(State()));
      if |ready| == 0 {
        IdleParked(State());
        Unblock(idle);
      }
      var next := ready[0];
      ready := ready[1..];
      SetStatus(next, Running);
      curr := next;
    }

    method Block(status: Status)
      requires Consistent(State()) && status.IsParked()
      modifies this`thds, this`ready, this`curr
      ensures State() == BlockedAs(old(State()), status)
      ensures SwitchedTo(old(State()), State(), old(thds)[old(curr)].(status := status), old(ready))
    {
      BlockedSwitches(State(), status);
      hide SwitchedTo, Scheduled;
      SetStatus(curr, status);
      Schedule();
    }

    method Yield()
      requires Consistent(State())
      modifies this`thds, this`ready, this`curr
      ensures State() == Yielded(old(State()))
      ensures SwitchedTo(old(State()), State(), old(thds)[old(curr)].(status := Ready), old(ready) + [old(curr)])
    {
      YieldedSwitches(State());
      hide SwitchedTo, Scheduled;
      assert curr !in ready;
      SetStatus(curr, Ready);
      ready := ready + [curr];
      Schedule();
    }

    /** Charges the current thread for a tick; `false` when it had none left. */
    method Tick() returns (left: bool)
      requires curr in thds
      modifies this`thds
      ensures left <==> old(thds)[curr].remain != 0
      ensures var thd := old(thds)[curr];
        thds == old(thds)[curr := thd.(elapsed := thd.elapsed + 1, remain := if left then thd.remain - 1 else 0)]
    {
      thds := thds[curr := thds[curr].(elapsed := thds[curr].elapsed + 1)];
      left := thds[curr].remain != 0;
      if left {
        thds := thds[curr := thds[curr].(remain := thds[curr].remain - 1)];
      }
    }

    method ClockIntrHandler()
      requires Consistent(State())
      modifies this`thds, this`ready, this`curr
      ensures State() == Ticked(old(State()))
      ensures TickedTo(old(State()), State())
    {
      ghost var s := State();
      TickedSwitches(s);
      ChargedThread(s);
      hide SwitchedTo, TickedTo, Scheduled, ListsOk, Charged;
      var left := Tick();
      assert State() == Charged(s);
      if !left {
        Schedule();
      }
    }

    method Create(t: nat, priority: nat)
      requires Consistent(State()) && t !in thds
      modifies this`thds
      ensures State() == Created(old(State()), t, priority)
      ensures thds == old(thds)[t := Thread(Died, priority, priority, 0)]
    {
      thds := thds[t := Thread(Died, priority, priority, 0)];
    }

    method Start(t: nat)
      requires Consistent(State()) && t in thds && thds[t].status.Died?
      modifies this`thds, this`ready
      ensures State() == Started(old(State()), t)
      ensures ready == old(ready) + [t] && thds == old(thds)[t := old(thds)[t].(status := Ready)]
    {
      assert t !in ready;
      SetStatus(t, Ready);
      ready := ready + [t];
    }
  }
}
