/** The order in which the threads that wait for a semaphore are woken. */
module WaitOrder {
  import opened Scheduling
  import opened Synchronization

  /**
   What a step may do to the wait list of a semaphore: nothing; the current thread joins it at the
   end; or its first thread leaves it for the front of the ready list.
   */
  ghost predicate ListStep(st: Sys, st': Sys, s: nat) {
    && s in st.semas && s in st'.semas
    && var (w, w') := (st.semas[s].waiters, st'.semas[s].waiters);
      || w' == w
      || (w' == w + [st.sched.curr] && st.sched.curr !in w)
      || (w != [] && w' == w[1..] && st'.sched.ready == [w[0]] + st.sched.ready && st'.sched.curr == st.sched.curr)
  }

  lemma DecreaseLists(st: Sys, r: nat, next: Place, s: nat)
    requires Ok(st) && r in st.semas && s in st.semas
    ensures ListStep(st, Decreased(st, r, next), s)
  {
    CurrentNotWaiting(st);
    hide Ok, Scheduled;
  }

  lemma IncreaseLists(st: Sys, r: nat, s: nat)
    requires CanWake(st, r) && s in st.semas
    ensures ListStep(st, Increased(st, r), s)
  {
    hide ListsOk;
  }

  /** Every step treats every wait list as a queue. */
  lemma WaitersStep(st: Sys, a: Action, s: nat)
    requires Ok(st) && CanDo(st, a) && s in st.semas
    ensures ListStep(st, Step(st, a), s)
  {
    hide Ok, Ticked, Yielded, BlockedAs, Unblocked, Created, Started;
    match a
    case Decrease(r) => DecreaseLists(st, r, Free, s);
    case Increase(r) => WaiterParked(st, r); IncreaseLists(st, r, s);
    case Next => NextLists(st, s);
    case _ =>
  }

  lemma NextLists(st: Sys, s: nat)
    requires Ok(st) && CanDo(st, Next) && s in st.semas
    ensures ListStep(st, Step(st, Next), s)
  {
    var t := st.sched.curr;
    var (p, r) := (st.place[t], st.place[t].s);
    AssertsHold(st, t);
    hide Ok, Decreased, Increased, NextDefined, Asserts, AssertOk, EffectOf;
    if p.InDecrease? || p.LockDecrease? {
      DecreaseLists(st, r, if r in st.mutexes then LockHolder(r) else Free, s);
    } else if p.UnlockIncrease? {
      IncreaseLists(st, r, s);
    }
  }

  // Lists that change like queues.

  /** Nothing, a newcomer joins at the end, or the first one leaves. */
  ghost predicate QueueStep(w: seq<nat>, w': seq<nat>) {
    || w' == w
    || (|w'| == |w| + 1 && w' == w + [w'[|w|]] && w'[|w|] !in w)
    || (w != [] && w' == w[1..])
  }

  /** The states of a queue, one after the other. */
  ghost predicate IsQueue(lists: seq<seq<nat>>) {
    && (forall k :: 0 <= k < |lists| ==> NoDuplicates(lists[k]))
    && forall k :: 0 < k < |lists| ==> QueueStep(lists[k - 1], lists[k])
  }

  /** How many have left the queue in its first `j` steps. */
  ghost function Left(lists: seq<seq<nat>>, j: nat): nat
    requires j < |lists|
  {
    if j == 0 then 0 else Left(lists, j - 1) + if |lists[j]| < |lists[j - 1]| then 1 else 0
  }

  lemma MovesUp(w: seq<nat>, w': seq<nat>, k: nat)
    requires QueueStep(w, w') && k < |w|
    ensures |w'| >= |w| ==> w'[k] == w[k]
    ensures |w'| < |w| && k > 0 ==> k - 1 < |w'| && w'[k - 1] == w[k]
  {
  }

  lemma {:induction false} PlaceInQueue(lists: seq<seq<nat>>, j: nat, k: nat)
    requires IsQueue(lists) && j < |lists| && k < |lists[0]| && Left(lists, j) <= k
    ensures k - Left(lists, j) < |lists[j]| && lists[j][k - Left(lists, j)] == lists[0][k]
  {
    if j > 0 {
      PlaceInQueue(lists, j - 1, k);
      hide QueueStep, NoDuplicates;
      MovesUp(lists[j - 1], lists[j], k - Left(lists, j - 1));
    }
  }

  /** Of two in the queue, `t` comes first. */
  ghost predicate Ahead(list: seq<nat>, t: nat, u: nat) {
    exists k :: 0 <= k < |list| && list[k] == t && u !in list[..k + 1]
  }

  lemma StillAhead(w: seq<nat>, w': seq<nat>, t: nat, u: nat)
    requires NoDuplicates(w) && QueueStep(w, w') && Ahead(w, t, u) && t in w'
    ensures Ahead(w', t, u) && (u in w ==> u in w')
  {
    var k :| 0 <= k < |w| && w[k] == t && u !in w[..k + 1];
    if w' == w {
    } else if |w'| > |w| {
      assert w'[..k + 1] == w[..k + 1];
    } else {
      assert k > 0 && w'[k - 1] == t && w'[..k] == w[1..k + 1];
      assert u != w[0];
    }
  }

  lemma {:induction false} StaysAhead(lists: seq<seq<nat>>, j: nat, t: nat, u: nat)
    requires IsQueue(lists) && j < |lists| && t in lists[0] && u !in lists[0]
    requires forall k :: 0 <= k <= j ==> t in lists[k]
    ensures Ahead(lists[j], t, u)
  {
    if j == 0 {
      var k :| 0 <= k < |lists[0]| && lists[0][k] == t;
    } else {
      StaysAhead(lists, j - 1, t, u);
      hide QueueStep, NoDuplicates, Ahead;
      StillAhead(lists[j - 1], lists[j], t, u);
    }
  }

  // Wait lists.

  /** The threads that wait for semaphore `s` in each state from `i` on. */
  ghost function WaitLists(states: seq<Sys>, i: nat, s: nat): (r: seq<seq<nat>>)
    requires i <= |states|
    ensures |r| == |states| - i
    ensures forall k :: 0 <= k < |r| && s in states[i + k].semas ==> r[k] == states[i + k].semas[s].waiters
  {
    seq(|states| - i, k requires 0 <= k < |states| - i =>
      if s in states[i + k].semas then states[i + k].semas[s].waiters else [])
  }

  lemma StepQueues(st: Sys, a: Action, st': Sys, s: nat)
    requires Ok(st) && IsStep(st, a, st') && s in st.semas
    ensures s in st'.semas && QueueStep(st.semas[s].waiters, st'.semas[s].waiters)
  {
    hide Ok, Step;
    WaitersStep(st, a, s);
  }

  lemma WaitersOnce(st: Sys, s: nat)
    requires Ok(st) && s in st.semas
    ensures NoDuplicates(st.semas[s].waiters)
  {
  }

  lemma RunQueues(states: seq<Sys>, actions: seq<Action>, j: nat, s: nat)
    requires IsRun(states, actions) && j < |states| && s in states[j].semas
    ensures NoDuplicates(states[j].semas[s].waiters)
    ensures j < |actions| ==>
      s in states[j + 1].semas && QueueStep(states[j].semas[s].waiters, states[j + 1].semas[s].waiters)
  {
    RunsStayOk(states, actions, j);
    assert j < |actions| ==> IsStep(states[j], actions[j], states[j + 1]);
    hide *;
    WaitersOnce(states[j], s);
    if j < |actions| {
      StepQueues(states[j], actions[j], states[j + 1], s);
    }
  }

  lemma {:induction false} SemaStays(states: seq<Sys>, actions: seq<Action>, i: nat, j: nat, s: nat)
    requires IsRun(states, actions) && i <= j < |states| && s in states[i].semas
    ensures s in states[j].semas
  {
    if i < j {
      SemaStays(states, actions, i, j - 1, s);
      assert j - 1 < |actions|;
      hide *;
      RunQueues(states, actions, j - 1, s);
    }
  }

  /** Every wait list of every run is a queue. */
  lemma WaitersQueue(states: seq<Sys>, actions: seq<Action>, i: nat, s: nat)
    requires IsRun(states, actions) && i < |states| && s in states[i].semas
    ensures IsQueue(WaitLists(states, i, s))
    ensures forall j :: i <= j < |states| ==> s in states[j].semas
  {
    assert |states| == |actions| + 1;
    hide QueueStep, NoDuplicates, WaitLists, IsRun;
    var lists := WaitLists(states, i, s);
    forall j | i <= j < |states| ensures s in states[j].semas {
      SemaStays(states, actions, i, j, s);
    }
    forall k | 0 <= k < |lists| ensures NoDuplicates(lists[k]) {
      RunQueues(states, actions, i + k, s);
    }
    forall k | 0 < k < |lists| ensures QueueStep(lists[k - 1], lists[k]) {
      RunQueues(states, actions, i + (k - 1), s);
      assert lists[k - 1] == states[i + (k - 1)].semas[s].waiters && lists[k] == states[i + k].semas[s].waiters;
    }
  }

  /**
   The thread behind `k` others in a wait list moves up with each of the next `k` wake-ups from
   this list and with nothing else, and so the one after these wakes it.
   */
  lemma PlaceInWaitList(states: seq<Sys>, actions: seq<Action>, i: nat, j: nat, s: nat, k: nat)
    requires IsRun(states, actions) && i <= j < |states| && s in states[i].semas && k < |states[i].semas[s].waiters|
    ensures s in states[j].semas
    ensures var n := Left(WaitLists(states, i, s), j - i);
      n <= k ==>
        k - n < |states[j].semas[s].waiters| && states[j].semas[s].waiters[k - n] == states[i].semas[s].waiters[k]
  {
    hide IsRun, IsQueue, WaitLists, Left;
    WaitersQueue(states, actions, i, s);
    var lists := WaitLists(states, i, s);
    assert lists[0] == states[i + 0].semas[s].waiters && lists[j - i] == states[i + (j - i)].semas[s].waiters;
    if Left(lists, j - i) <= k {
      hide *;
      PlaceInQueue(lists, j - i, k);
    }
  }

  /**
   Waiters are woken in the order in which they queued: as long as thread `t`, which waited before
   `u` did, still waits, `u` is not woken.
   */
  lemma WokenInOrder(states: seq<Sys>, actions: seq<Action>, i: nat, j: nat, s: nat, t: nat, u: nat)
    requires IsRun(states, actions) && i <= j < |actions| && s in states[i].semas
    requires t in states[i].semas[s].waiters && u !in states[i].semas[s].waiters
    requires forall k :: i <= k <= j + 1 && s in states[k].semas ==> t in states[k].semas[s].waiters
    ensures s in states[j].semas && s in states[j + 1].semas
    ensures u in states[j].semas[s].waiters ==>
      Ahead(states[j].semas[s].waiters, t, u) && u in states[j + 1].semas[s].waiters
  {
    assert j + 1 < |states|;
    hide IsRun, WaitLists, Ahead, QueueStep, NoDuplicates;
    WaitersQueue(states, actions, i, s);
    var lists, n := WaitLists(states, i, s), j - i;
    assert forall k :: 0 <= k < |lists| ==> lists[k] == states[i + k].semas[s].waiters;
    assert lists[n] == states[i + n].semas[s].waiters && lists[n + 1] == states[i + (n + 1)].semas[s].waiters;
    assert QueueStep(lists[n + 1 - 1], lists[n + 1]) && NoDuplicates(lists[n]);
    assert forall k :: 0 <= k <= n + 1 ==> t in lists[k];
    hide *;
    StaysAhead(lists, n, t, u);
    StillAhead(lists[n], lists[n + 1], t, u);
  }
}
