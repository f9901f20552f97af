/** SysTick: virtual deadlines that keep their phase
    (crates/minemu-core/src/systick.rs). */
module Timer {
  import opened Platform
  import Interrupts

  datatype State = State(period: u32, enabled: bool, periodic: bool, irqEnabled: bool, pending: bool, deadline: Option<nat>) {
    predicate IrqPending() { pending && irqEnabled }

    /** A deadline exists exactly when the timer runs with a nonzero period, and it lies
        in (now, now + period]. */
    predicate InPhase(now: nat) {
      && (deadline.Some? <==> enabled && period != 0)
      && (deadline.Some? ==> now < deadline.value <= now + period)
    }
  }

  const RESET := State(0, false, false, false, false, None)

  /** Guest writes and the passage of time. Register decoding has rejected a zero PERIOD,
      a CONTROL above 7 and an ACK other than 1. */
  datatype Update =
    | Period(period: u32)
    | Control(control: u32)
    | Ack
    | AdvanceTo

  predicate Accepted(u: Update) {
    match u case Period(period) => period != 0 case Control(control) => control <= 7 case _ => true
  }

  /** The first of `deadline`, `deadline + period`, ... that lies beyond `now`. */
  function NextAfter(deadline: nat, period: nat, now: nat): nat
    requires period != 0
    decreases now + period - deadline
  {
    if deadline > now then deadline else NextAfter(deadline + period, period, now)
  }

  function Step(t: State, u: Update, now: nat): State {
    match u
    case Period(period) => t.(period := period, deadline := if t.enabled then Some(now + period) else t.deadline)
    case Control(control) =>
      var enabled := control % 2 == 1;
      var start := enabled && (!t.enabled || t.deadline.None?) && t.period != 0;
      State(t.period, enabled, control / 2 % 2 == 1, control / 4 % 2 == 1, t.pending,
            if !enabled then None else if start then Some(now + t.period) else t.deadline)
    case Ack => t.(pending := false)
    case AdvanceTo =>
      if t.deadline.None? || t.deadline.value > now then t
      else if t.periodic && t.period != 0 then
        t.(pending := true, deadline := Some(NextAfter(t.deadline.value, t.period, now)))
      else t.(pending := true, enabled := false, deadline := None)
  }

  class SysTick {
    var period: u32
    var enabled: bool
    var periodic: bool
    var irqEnabled: bool
    var pending: bool
    var nextDeadline: Option<nat>
    const sender: Interrupts.SignalQueue

    function Value(): State
      reads this
    {
      State(period, enabled, periodic, irqEnabled, pending, nextDeadline)
    }

    constructor (queue: Interrupts.SignalQueue)
      ensures sender == queue && Value() == RESET
    {
      sender := queue;
      period, enabled, periodic, irqEnabled, pending, nextDeadline := 0, false, false, false, false, None;
    }

    method SetPeriod(value: u32, now: nat)
      modifies this
      ensures Value() == Step(old(Value()), Period(value), now)
    {
      period := value;
      if enabled { nextDeadline := Some(now + value); }
    }

    method SetControl(control: u32, now: nat)
      modifies this
      ensures Value() == Step(old(Value()), Control(control), now)
    {
      var wasEnabled := enabled;
      enabled, periodic, irqEnabled := control % 2 == 1, control / 2 % 2 == 1, control / 4 % 2 == 1;
      if enabled && (!wasEnabled || nextDeadline.None?) && period != 0 {
        nextDeadline := Some(now + period);
      }
      if !enabled { nextDeadline := None; }
    }

    /** `advance_to`: the catch-up loop over every deadline that `now` has reached. */
    method Advance(now: nat) returns (expired: bool)
      modifies this
      ensures Value() == Step(old(Value()), AdvanceTo, now)
      ensures expired <==> old(nextDeadline).Some? && old(nextDeadline).value <= now
    {
      if nextDeadline.None? || nextDeadline.value > now { return false; }
      var deadline := nextDeadline.value;
      pending := true;
      if periodic && period != 0 {
        while deadline <= now
          invariant NextAfter(deadline, period, now) == NextAfter(old(nextDeadline).value, period, now)
          decreases now + period - deadline
        {
          deadline := deadline + period;
        }
        nextDeadline := Some(deadline);
      } else {
        enabled, nextDeadline := false, None;
      }
      return true;
    }

    /** `update`: every update reports the resulting level. */
    method Update(u: Update, now: nat)
      modifies this, sender
      ensures Value() == Step(old(Value()), u, now)
      ensures sender.signals == old(sender.signals) + [Interrupts.Signal(Interrupts.Source.SysTick, Value().IrqPending())]
    {
      match u {
        case Period(value) => SetPeriod(value, now);
        case Control(control) => SetControl(control, now);
        case Ack => pending := false;
        case AdvanceTo => var _ := Advance(now);
      }
      sender.Send(Interrupts.Signal(Interrupts.Source.SysTick, pending && irqEnabled));
    }
  }

  // ---- Phase ----

  lemma {:induction false} NextAfterIsBeyond(deadline: nat, period: nat, now: nat)
    requires period != 0
    ensures now < NextAfter(deadline, period, now)
    ensures deadline <= now ==> NextAfter(deadline, period, now) <= now + period
    decreases now + period - deadline
  {
    if deadline <= now { NextAfterIsBeyond(deadline + period, period, now); }
  }

  /** The new deadline is a whole number of periods after the old one. */
  lemma {:induction false} NextAfterKeepsPhase(deadline: nat, period: nat, now: nat) returns (k: nat)
    requires period != 0
    ensures NextAfter(deadline, period, now) == deadline + k * period
    decreases now + period - deadline
  {
    if deadline > now { k := 0; }
    else {
      var rest := NextAfterKeepsPhase(deadline + period, period, now);
      k := rest + 1;
    }
  }

  /** No earlier value of the same phase lies beyond `now`. */
  lemma {:induction false} NextAfterIsLeast(deadline: nat, period: nat, now: nat, k: nat)
    requires period != 0 && deadline + k * period > now
    ensures NextAfter(deadline, period, now) <= deadline + k * period
    decreases k
  {
    if deadline <= now {
      assert k != 0;
      assert k * period == period + (k - 1) * period;
      NextAfterIsLeast(deadline + period, period, now, k - 1);
    }
  }

  /** Every accepted write at tick `now` keeps the timer in phase. */
  lemma WriteKeepsPhase(t: State, u: Update, now: nat)
    requires t.InPhase(now) && Accepted(u)
    ensures Step(t, u, now).InPhase(now)
  {}

  /** So does the next tick, and any later one. */
  lemma AdvanceKeepsPhase(t: State, before: nat, now: nat)
    requires t.InPhase(before) && before <= now
    ensures Step(t, AdvanceTo, now).deadline.Some? ==> now < Step(t, AdvanceTo, now).deadline.value
    ensures Step(t, AdvanceTo, now).InPhase(now)
  {
    if t.deadline.Some? && t.deadline.value <= now && t.period != 0 {
      NextAfterIsBeyond(t.deadline.value, t.period, now);
    }
  }

  lemma {:induction false} NextAfterTwice(deadline: nat, period: nat, first: nat, second: nat)
    requires period != 0 && first <= second
    ensures NextAfter(NextAfter(deadline, period, first), period, second) == NextAfter(deadline, period, second)
    decreases first + period - deadline
  {
    if deadline <= first { NextAfterTwice(deadline + period, period, first, second); }
  }

  /** Stopping on the way to a tick makes no difference at that tick. */
  lemma AdvanceTwice(t: State, first: nat, second: nat)
    requires first <= second
    ensures Step(Step(t, AdvanceTo, first), AdvanceTo, second) == Step(t, AdvanceTo, second)
  {
    if t.deadline.Some? && t.deadline.value <= first && t.periodic && t.period != 0 {
      NextAfterTwice(t.deadline.value, t.period, first, second);
    }
  }

  // ---- Registers and expiry ----

  /** PERIOD restarts a running timer; ACK clears the pending bit; neither changes anything else. */
  lemma PeriodAndAck(t: State, period: u32, now: nat)
    ensures var p, a := Step(t, Period(period), now), Step(t, Ack, now);
      && p.period == period && p.deadline == (if t.enabled then Some(now + period) else t.deadline)
      && (p.enabled, p.periodic, p.irqEnabled, p.pending) == (t.enabled, t.periodic, t.irqEnabled, t.pending)
      && !a.pending && (a.period, a.deadline) == (t.period, t.deadline)
      && (a.enabled, a.periodic, a.irqEnabled) == (t.enabled, t.periodic, t.irqEnabled)
  {}

  /** CONTROL: bit 0 enables, bit 1 makes the timer periodic, bit 2 lets it interrupt. Enabling
      arms it one period ahead unless it is armed already, and disabling disarms it. */
  lemma ControlBits(t: State, control: u32, now: nat)
    requires control <= 7
    ensures var c := Step(t, Control(control), now);
      && (c.enabled <==> control in {1, 3, 5, 7}) && (c.periodic <==> control in {2, 3, 6, 7})
      && (c.irqEnabled <==> control in {4, 5, 6, 7})
      && (c.period, c.pending) == (t.period, t.pending)
      && c.deadline ==
           if !c.enabled then None
           else if t.enabled && t.deadline.Some? then t.deadline
           else if t.period == 0 then t.deadline
           else Some(now + t.period)
  {}

  /** The pending bit is set exactly by reaching the deadline. A one-shot timer then disables
      itself; a periodic one moves its deadline on by whole periods. */
  lemma ExpiryIsExact(t: State, before: nat, now: nat)
    requires t.InPhase(before) && before <= now
    ensures var after, due := Step(t, AdvanceTo, now), t.deadline.Some? && t.deadline.value <= now;
      && (after.pending <==> t.pending || due)
      && (after.enabled <==> t.enabled && (due ==> t.periodic))
      && (after.period, after.periodic, after.irqEnabled) == (t.period, t.periodic, t.irqEnabled)
      && (!due ==> after.deadline == t.deadline)
      && (due ==> (after.deadline.Some? <==> t.periodic))
      && (due && t.periodic ==> exists k: nat :: after.deadline.value == t.deadline.value + k * t.period)
  {
    if t.deadline.Some? && t.deadline.value <= now && t.periodic {
      var k := NextAfterKeepsPhase(t.deadline.value, t.period, now);
    }
  }

  /** A timer programmed at tick T with a nonzero period and CONTROL `mode`. */
  function Programmed(period: u32, mode: u32, T: nat): State { Step(Step(RESET, Period(period), T), Control(mode), T) }

  /** A periodic timer programmed at T and acknowledged at a later tick is pending again at `now`
      exactly when one of T + p, T + 2p, ... lies beyond the acknowledgement and not beyond
      `now`, wherever the ticks in between fell. */
  lemma PeriodicSchedule(period: u32, T: nat, acked: nat, now: nat)
    requires period != 0 && T <= acked <= now
    ensures var after := Step(Step(Step(Programmed(period, 7, T), AdvanceTo, acked), Ack, acked), AdvanceTo, now);
      after.IrqPending() <==> exists k: nat :: acked < T + k * period <= now
  {
    var first := T + period;
    var next := NextAfter(first, period, acked);
    NextAfterIsBeyond(first, period, acked);
    var k := NextAfterKeepsPhase(first, period, acked);
    assert T + (k + 1) * period == next;
    forall n: nat | acked < T + n * period ensures next <= T + n * period {
      assert n != 0;
      assert (n - 1) * period + period == n * period;
      NextAfterIsLeast(first, period, acked, n - 1);
    }
    if next <= now { assert acked < T + (k + 1) * period <= now; }
  }

  /** A one-shot timer expires once, at T + p. */
  lemma OneShotSchedule(period: u32, T: nat, acked: nat, now: nat)
    requires period != 0 && T <= acked <= now
    ensures var after := Step(Step(Step(Programmed(period, 5, T), AdvanceTo, acked), Ack, acked), AdvanceTo, now);
      (after.IrqPending() <==> acked < T + period <= now) && (after.enabled <==> now < T + period)
  {}
}
