/** How long a ready thread waits for the processor. */
module BoundedWaiting {
  import opened Scheduling

  datatype Event =
    | Tick
    | Yield
    | Block(status: Status)
    | Unblock(t: nat)
    | Create(t: nat, priority: nat)
    | Start(t: nat)

  ghost predicate CanHappen(s: Sched, e: Event) {
    match e
    case Tick => true
    case Yield => true
    case Block(status) => status.IsParked()
    case Unblock(t) => t in s.thds && s.thds[t].status.IsParked()
    case Create(t, _) => t !in s.thds
    case Start(t) => t in s.thds && s.thds[t].status.Died?
  }

  function After(s: Sched, e: Event): (r: Sched)
    requires Consistent(s) && CanHappen(s, e)
    ensures Consistent(r)
  {
    match e
    case Tick => Ticked(s)
    case Yield => Yielded(s)
    case Block(status) => BlockedAs(s, status)
    case Unblock(t) => Unblocked(s, t)
    case Create(t, priority) => Created(s, t, priority)
    case Start(t) => Started(s, t)
  }

  /** A run of the system, from any consistent state. */
  ghost predicate IsRun(states: seq<Sched>, events: seq<Event>) {
    && |states| == |events| + 1 && Consistent(states[0])
    && forall i :: 0 <= i < |events| ==> IsStep(states[i], events[i], states[i + 1])
  }

  ghost predicate IsStep(s: Sched, e: Event, s': Sched) {
    Consistent(s) && CanHappen(s, e) && s' == After(s, e)
  }

  /** Whether the event calls `Schedule`: the clock does when the current thread has no ticks left. */
  predicate Switches(s: Sched, e: Event)
    requires s.curr in s.thds
  {
    e.Yield? || e.Block? || (e.Tick? && s.thds[s.curr].remain == 0)
  }

  function CountSwitches(states: seq<Sched>, events: seq<Event>): nat
    requires |states| == |events| + 1 && forall s :: s in states ==> s.curr in s.thds
  {
    if events == [] then 0
    else
      CountSwitches(states[..|events|], events[..|events| - 1]) +
      if Switches(states[|events| - 1], events[|events| - 1]) then 1 else 0
  }

  function CountUnblocks(events: seq<Event>): nat {
    if events == [] then 0
    else CountUnblocks(events[..|events| - 1]) + if events[|events| - 1].Unblock? then 1 else 0
  }

  function CountTicks(events: seq<Event>): nat {
    if events == [] then 0
    else CountTicks(events[..|events| - 1]) + if events[|events| - 1].Tick? then 1 else 0
  }

  /** The thread waits at position `k` of the ready list. */
  ghost predicate WaitsAt(s: Sched, t: nat, k: nat) {
    k < |s.ready| && s.ready[k] == t
  }

  /** One event: a waiting thread moves up by a switch, back by an unblocking, and runs once it is first. */
  lemma OneEvent(s: Sched, e: Event, t: nat, k: nat)
    requires Consistent(s) && CanHappen(s, e) && WaitsAt(s, t, k)
    ensures var s' := After(s, e);
      if Switches(s, e) then (if k == 0 then s'.curr == t else WaitsAt(s', t, k - 1))
      else if e.Unblock? then WaitsAt(s', t, k + 1)
      else WaitsAt(s', t, k)
  {
    hide Scheduled, NoDuplicates;
  }

  lemma RunPrefix(states: seq<Sched>, events: seq<Event>)
    requires IsRun(states, events) && |events| > 0
    ensures IsRun(states[..|events|], events[..|events| - 1])
    ensures IsStep(states[|events| - 1], events[|events| - 1], states[|events|])
    ensures states[..|events|][|events| - 1] == states[|events| - 1]
    ensures states[|events| - 1].curr in states[|events| - 1].thds
  {
  }

  lemma RunConsistent(states: seq<Sched>, events: seq<Event>)
    requires IsRun(states, events)
    ensures forall s :: s in states ==> Consistent(s)
  {
    forall i | 0 <= i < |states| ensures Consistent(states[i]) {
      assert i > 0 ==> IsStep(states[i - 1], events[i - 1], states[i]);
    }
  }

  /** While a thread waits, its position accounts for every switch and every unblocking. */
  lemma {:induction false} PositionAccounts(states: seq<Sched>, events: seq<Event>, t: nat, k: nat) returns (p: nat)
    requires IsRun(states, events) && WaitsAt(states[0], t, k)
    requires forall i :: 0 < i < |states| ==> states[i].curr != t
    ensures forall s :: s in states ==> s.curr in s.thds
    ensures WaitsAt(states[|events|], t, p) && p + CountSwitches(states, events) == k + CountUnblocks(events)
  {
    RunConsistent(states, events);
    if events == [] {
      p := k;
    } else {
      RunPrefix(states, events);
      var n := |events| - 1;
      hide Consistent, CanHappen, After, Budget, UnblockCharge, Charge;
      var q := PositionAccounts(states[..n + 1], events[..n], t, k);
      assert states[n + 1] == After(states[n], events[n]) && states[n + 1].curr != t;
      hide IsRun, IsStep;
      OneEvent(states[n], events[n], t, q);
      p := if Switches(states[n], events[n]) then q - 1 else if events[n].Unblock? then q + 1 else q;
    }
  }

  /**
   Bounded waiting: a thread at position `k` runs by the `(k + 1 + u)`-th switch, where `u`
   counts the unblockings meanwhile.
   */
  lemma RunsSoon(states: seq<Sched>, events: seq<Event>, t: nat, k: nat)
    requires IsRun(states, events) && WaitsAt(states[0], t, k)
    ensures forall s :: s in states ==> s.curr in s.thds
    ensures CountSwitches(states, events) >= k + 1 + CountUnblocks(events) ==>
      exists i :: 0 < i < |states| && states[i].curr == t
  {
    RunConsistent(states, events);
    if forall i :: 0 < i < |states| ==> states[i].curr != t {
      var p := PositionAccounts(states, events, t, k);
    }
  }

  // Time, in clock interrupts.

  ghost predicate TicksOk(s: Sched) {
    forall t :: t in s.thds ==> s.thds[t].remain <= s.thds[t].priority
  }

  /** Ticks never exceed the priority, in any run. */
  lemma TicksStayOk(s: Sched, e: Event)
    requires Consistent(s) && CanHappen(s, e) && TicksOk(s)
    ensures TicksOk(After(s, e))
  {
    hide Scheduled, NoDuplicates;
  }

  /** The clock interrupts that thread `t` may be charged before it is preempted. */
  function Charge(s: Sched, t: nat): nat {
    if t in s.thds then s.thds[t].remain + 1 else 0
  }

  function ChargeOf(s: Sched, list: seq<nat>): nat {
    if list == [] then 0 else Charge(s, list[0]) + ChargeOf(s, list[1..])
  }

  /** What the current thread and the first `k` ready ones may be charged. */
  function Budget(s: Sched, k: nat): nat
    requires k <= |s.ready|
  {
    Charge(s, s.curr) + ChargeOf(s, s.ready[..k])
  }

  /** The bound in terms of priorities. */
  function Priorities(s: Sched, list: seq<nat>): nat {
    if list == [] then 0 else (if list[0] in s.thds then s.thds[list[0]].priority + 1 else 0) + Priorities(s, list[1..])
  }

  lemma {:induction false} ChargeWithinPriorities(s: Sched, list: seq<nat>)
    requires TicksOk(s)
    ensures ChargeOf(s, list) <= Priorities(s, list)
  {
    if list != [] {
      ChargeWithinPriorities(s, list[1..]);
    }
  }

  lemma {:induction false} SameCharges(s: Sched, s': Sched, list: seq<nat>)
    requires forall t :: t in list ==> Charge(s', t) == Charge(s, t)
    ensures ChargeOf(s', list) == ChargeOf(s, list)
  {
    if list != [] {
      SameCharges(s, s', list[1..]);
    }
  }

  /** What an unblocked thread may take in front of the waiting ones. */
  function UnblockCharge(s: Sched, e: Event): nat {
    if e.Unblock? then Charge(s, e.t) else 0
  }

  function UnblockCharges(states: seq<Sched>, events: seq<Event>): nat
    requires |states| == |events| + 1
  {
    if events == [] then 0
    else
      UnblockCharges(states[..|events|], events[..|events| - 1]) +
      UnblockCharge(states[|events| - 1], events[|events| - 1])
  }

  /** One event: every clock interrupt is paid for from the budget. */
  lemma OneCharge(s: Sched, e: Event, t: nat, k: nat)
    requires Consistent(s) && CanHappen(s, e) && WaitsAt(s, t, k) && !(Switches(s, e) && k == 0)
    ensures var s' := After(s, e);
      var k' := if Switches(s, e) then k - 1 else if e.Unblock? then k + 1 else k;
      WaitsAt(s', t, k') && Budget(s', k') + (if e.Tick? then 1 else 0) <= Budget(s, k) + UnblockCharge(s, e)
  {
    OneEvent(s, e, t, k);
    AheadCharges(s, e, k);
    CurrentCharge(s, e);
    ReadyAfter(s, e, k);
    hide Consistent, CanHappen, After;
    if e.Unblock? {
      assert ([e.t] + s.ready[..k])[1..] == s.ready[..k];
    }
  }

  lemma ReadyAfter(s: Sched, e: Event, k: nat)
    requires Consistent(s) && CanHappen(s, e) && k < |s.ready|
    ensures var s' := After(s, e);
      if Switches(s, e) then
        s'.curr == s.ready[0] && k <= |s'.ready| &&
          (k > 0 ==> s.ready[..k][0] == s.ready[0] && s'.ready[..k - 1] == s.ready[..k][1..])
      else if e.Unblock? then k < |s'.ready| && s'.curr == s.curr && s'.ready[..k + 1] == [e.t] + s.ready[..k]
      else k <= |s'.ready| && s'.curr == s.curr && s'.ready[..k] == s.ready[..k]
  {
    hide Scheduled, NoDuplicates;
  }

  /** The current thread, unless it is switched away from, pays for the clock interrupt. */
  lemma CurrentCharge(s: Sched, e: Event)
    requires Consistent(s) && CanHappen(s, e)
    ensures if Switches(s, e) then e.Tick? ==> Charge(s, s.curr) == 1
      else Charge(After(s, e), s.curr) + (if e.Tick? then 1 else 0) == Charge(s, s.curr)
    ensures Charge(s, s.curr) >= 1
  {
    hide Scheduled, NoDuplicates;
  }

  /** Threads that wait are not charged. */
  lemma AheadCharges(s: Sched, e: Event, k: nat)
    requires Consistent(s) && CanHappen(s, e) && k <= |s.ready|
    ensures ChargeOf(After(s, e), s.ready[..k]) == ChargeOf(s, s.ready[..k])
    ensures forall t :: t in s.ready ==> Charge(After(s, e), t) == Charge(s, t)
    ensures e.Unblock? ==> Charge(After(s, e), e.t) == Charge(s, e.t)
  {
    hide Scheduled, NoDuplicates;
    var s' := After(s, e);
    forall t | t in s.ready ensures Charge(s', t) == Charge(s, t) {
      assert t != s.curr;
    }
    SameCharges(s, s', s.ready[..k]);
  }

  /** A thread that is still waiting has left the budget positive. */
  lemma {:induction false} TicksArePaid(states: seq<Sched>, events: seq<Event>, t: nat, k: nat) returns (p: nat)
    requires IsRun(states, events) && WaitsAt(states[0], t, k)
    requires forall i :: 0 < i < |states| ==> states[i].curr != t
    ensures WaitsAt(states[|events|], t, p)
    ensures CountTicks(events) + Budget(states[|events|], p) <= Budget(states[0], k) + UnblockCharges(states, events)
  {
    RunConsistent(states, events);
    if events == [] {
      p := k;
    } else {
      RunPrefix(states, events);
      var n := |events| - 1;
      hide Consistent, CanHappen, After, Budget, UnblockCharge, Charge;
      var q := TicksArePaid(states[..n + 1], events[..n], t, k);
      assert states[n + 1] == After(states[n], events[n]) && states[n + 1].curr != t;
      hide IsRun, IsStep;
      OneEvent(states[n], events[n], t, q);
      OneCharge(states[n], events[n], t, q);
      p := if Switches(states[n], events[n]) then q - 1 else if events[n].Unblock? then q + 1 else q;
      hide WaitsAt, Switches;
    }
  }

  /**
   The wait in clock interrupts: at most what the current thread, the threads ahead and the
   threads unblocked meanwhile may be charged; without unblockings, at most one more than the
   priority of each.
   */
  lemma RunsInTime(states: seq<Sched>, events: seq<Event>, t: nat, k: nat)
    requires IsRun(states, events) && WaitsAt(states[0], t, k)
    ensures CountTicks(events) >= Budget(states[0], k) + UnblockCharges(states, events) ==>
      exists i :: 0 < i < |states| && states[i].curr == t
    ensures TicksOk(states[0]) ==>
      Budget(states[0], k) <= Priorities(states[0], [states[0].curr] + states[0].ready[..k])
  {
    RunConsistent(states, events);
    if forall i :: 0 < i < |states| ==> states[i].curr != t {
      var p := TicksArePaid(states, events, t, k);
    }
    if TicksOk(states[0]) {
      var ahead := states[0].ready[..k];
      ChargeWithinPriorities(states[0], [states[0].curr] + ahead);
      assert ([states[0].curr] + ahead)[1..] == ahead;
    }
  }
}
