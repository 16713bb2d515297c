/** The guest's virtual timer (timer arm of `trap_handler`, src/guest/vmexit.rs; src/guest/sbi.rs; initial
    state of `init_vmm`, src/hypervisor.rs), as a state machine. */
module VirtualTimer {
  import opened Words

  /** Host time, the deadline last given to the firmware, the guest's pending bit (hvip.VSTIP), the host's
      timer enable (sie.STIE), the count `timer_irq`, and how often the guest set its timer. */
  datatype Timer = Timer(now: nat, deadline: nat, vstip: bool, stie: bool, ticks: nat, sets: nat)

  datatype TimerEvent = Elapse(delta: nat) | TimerTrap | SetTimer(stime: nat)

  /** After `init_vmm`; the firmware's deadline is not known. */
  predicate Initial(t: Timer) {
    !t.vstip && t.stie && t.ticks == 0 && t.sets == 0
  }

  /** The timer arm: make the guest's interrupt pending and mask the host's. */
  function OnTimerTrap(t: Timer): Timer {
    t.(vstip := true, stie := false, ticks := t.ticks + 1)
  }

  /** Both set-timer calls: program the deadline, clear the guest's pending bit, unmask the host's timer. */
  function OnSetTimer(t: Timer, stime: nat): Timer {
    t.(deadline := stime, vstip := false, stie := true, sets := t.sets + 1)
  }

  /** One step; None when the event cannot happen: the hardware traps only when the timer interrupt is
      enabled and the deadline has passed. */
  function Step(t: Timer, e: TimerEvent): Option<Timer> {
    match e
    case Elapse(delta) => Some(t.(now := t.now + delta))
    case TimerTrap => if t.stie && t.now >= t.deadline then Some(OnTimerTrap(t)) else None
    case SetTimer(stime) => Some(OnSetTimer(t, stime))
  }

  function Run(t: Timer, es: seq<TimerEvent>): Option<Timer>
    decreases |es|
  {
    if es == [] then Some(t)
    else
      match Run(t, es[..|es| - 1])
      case None => None
      case Some(u) => Step(u, es[|es| - 1])
  }

  lemma {:induction false} PrefixRuns(t: Timer, es: seq<TimerEvent>, k: nat)
    requires k <= |es| && Run(t, es).Some?
    ensures Run(t, es[..k]).Some?
    decreases |es|
  {
    if k == |es| {
      assert es[..k] == es;
    } else {
      PrefixRuns(t, es[..|es| - 1], k);
      assert es[..|es| - 1][..k] == es[..k];
    }
  }

  function SetsIn(es: seq<TimerEvent>): nat {
    if es == [] then 0 else SetsIn(es[..|es| - 1]) + if es[|es| - 1].SetTimer? then 1 else 0
  }

  /** The deadline in force after a run: the last one the guest set. */
  function LastDeadline(first: nat, es: seq<TimerEvent>): nat {
    if es == [] then first
    else if es[|es| - 1].SetTimer? then es[|es| - 1].stime
    else LastDeadline(first, es[..|es| - 1])
  }

  /** Over every run from `init_vmm`: the guest's tick is pending exactly while the host's timer is masked;
      it is never early; ticks never exceed one more than the guest's set-timer calls; and a tick that is
      due but not pending can be delivered at once. */
  lemma {:induction false} EveryTimerRun(t: Timer, es: seq<TimerEvent>)
    requires Initial(t) && Run(t, es).Some?
    ensures var u := Run(t, es).value;
            && (u.vstip <==> !u.stie)
            && (u.vstip ==> u.now >= LastDeadline(t.deadline, es))
            && u.deadline == LastDeadline(t.deadline, es)
            && u.sets == SetsIn(es)
            && u.ticks <= SetsIn(es) + (if u.stie then 0 else 1)
            && (u.now >= LastDeadline(t.deadline, es) && !u.vstip ==> Step(u, TimerTrap).Some?)
    decreases |es|
  {
    if es != [] {
      EveryTimerRun(t, es[..|es| - 1]);
    }
  }

  /** An injected tick stays pending, and no second one is taken, until the guest sets its timer again. */
  lemma {:induction false} TickStaysPending(t: Timer, es: seq<TimerEvent>)
    requires t.vstip && !t.stie
    requires Run(t, es).Some? && SetsIn(es) == 0
    ensures var u := Run(t, es).value; u.vstip && !u.stie && u.ticks == t.ticks && u.deadline == t.deadline
    decreases |es|
  {
    if es != [] {
      TickStaysPending(t, es[..|es| - 1]);
    }
  }

  /** Between two set-timer calls the guest is interrupted at most once, and exactly once if its tick is
      pending at the end. */
  lemma {:induction false} OneTickPerDeadline(t: Timer, es: seq<TimerEvent>)
    requires !t.vstip && t.stie
    requires Run(t, es).Some? && SetsIn(es) == 0
    ensures var u := Run(t, es).value; u.ticks == t.ticks + (if u.vstip then 1 else 0) && (u.vstip <==> !u.stie)
    decreases |es|
  {
    if es != [] {
      OneTickPerDeadline(t, es[..|es| - 1]);
    }
  }
}
