/** The semaphore as it works: its methods are steps of the system on any semaphore of the same state. */
module Semaphores {
  import opened Scheduling
  import opened Synchronization

  class Semaphore {
    var val: nat
    const max: nat
    var waiters: seq<nat>

    function State(): Sema
      reads this
    {
      Sema(val, max, waiters)
    }

    /** The assertion of `Init`. */
    constructor (val: nat, max: nat)
      requires val <= max
      ensures State() == Sema(val, max, [])
    {
      this.val, this.max, this.waiters := val, max, [];
    }

    /** This semaphore and the scheduler are the ones that number `s` stands for in the system. */
    ghost predicate IsIn(st: Sys, s: nat, sched: Scheduler)
      reads this, sched
    {
      s in st.semas && st.semas[s] == State() && st.sched == sched.State()
    }

    method Increase(sched: Scheduler, ghost st: Sys, ghost s: nat)
      requires IsIn(st, s, sched) && CanWake(st, s) && val <= max
      modifies this, sched
      ensures IsIn(Increased(st, s), s, sched)
      ensures Increased(st, s) == st.(sched := sched.State(), semas := st.semas[s := State()])
      ensures val == if old(val) < max then old(val) + 1 else max
      ensures old(val) == max || old(waiters) == [] ==>
        waiters == old(waiters) && sched.State() == old(sched.State())
      ensures old(val) < max && old(waiters) != [] ==>
        && waiters == old(waiters)[1..] && sched.ready == [old(waiters)[0]] + old(sched.ready)
        && sched.thds == old(sched.thds)[old(waiters)[0] := old(sched.thds)[old(waiters)[0]].(status := Ready)]
        && sched.curr == old(sched.curr)
    {
      if val != max {
        if |waiters| != 0 {
          var next := waiters[0];
          waiters := waiters[1..];
          sched.Unblock(next);
        }
        val := val + 1;
      } else {
        assert st.semas[s := State()] == st.semas;
      }
    }

    /**
     One pass of the loop of `Decrease`, from its test to the next one. A thread that is not
     let through has been queued and has left the processor; it passes here again when woken.
     */
    method DecreasePass(sched: Scheduler, next: Place, ghost st: Sys, ghost s: nat) returns (passed: bool)
      requires IsIn(st, s, sched) && Consistent(st.sched) && sched.curr !in waiters
      modifies this, sched
      ensures passed <==> old(val) > 0
      ensures Decreased(st, s, next) ==
        At(st, old(sched.curr), if passed then next else InDecrease(s))
          .(sched := sched.State(), semas := st.semas[s := State()])
      ensures passed ==>
        val == old(val) - 1 && waiters == old(waiters) && sched.State() == old(sched.State())
      ensures !passed ==>
        && val == old(val) == 0 && waiters == old(waiters) + [old(sched.curr)]
        && SwitchedTo(old(sched.State()), sched.State(), old(sched.thds)[old(sched.curr)].(status := Blocked),
                      old(sched.ready))
    {
      if val == 0 {
        waiters := waiters + [sched.curr];
        sched.Block(Blocked);
        return false;
      }
      val := val - 1;
      return true;
    }
  }
}
