/** What commands, stops and limits do to a running service, and that bounded work ends
    (crates/minemu-runtime/src/service.rs). */
module ServiceLaws {
  import opened Platform
  import opened Registers
  import opened Scheduler
  import Backend

  // ---- Commands and stops ----

  /** What each command does. A resume is heard only while paused, a pause only while running; a
      reset that replaces the machine starts its clock at zero and keeps the service as it is. */
  lemma CommandEffects(s: State, c: Command)
    ensures var r := Commanded(s, c);
      && r.deadline == s.deadline && r.scheduled == s.scheduled
      && (c.Pause? ==> r == if s.lifecycle == Running then s.(lifecycle := Paused, remaining := None) else s)
      && (c.Resume? && s.lifecycle != Paused ==> r == s)
      && (c.Resume? && s.lifecycle == Paused && (s.breakpoint.None? || c.steppable) ==>
            r.lifecycle == Running && r.remaining == c.limit && r.breakpoint.None? && r.cpu == s.cpu && r.log == s.log + [Resumed(c.limit)])
      && (c.Resume? && s.lifecycle == Paused && s.breakpoint.Some? && !c.steppable ==> r.lifecycle == Ended)
      && (c.Reset? && (s.lifecycle == Ended || c.outcome == Untouched) ==> r == s)
      && (c.Reset? && s.lifecycle != Ended && c.outcome != Untouched ==>
            && r.cpu.ticks == 0 && r.cpu.deferred.None? && r.lifecycle == s.lifecycle && r.remaining == s.remaining
            && r.breakpoint == if c.outcome == Restarted then None else s.breakpoint)
      && (c.Shutdown? ==> r.lifecycle == Ended && r.cpu == s.cpu)
      && (c.Inspect? ==> r == s)
  {}

  function WishOf(c: Command): Option<Lifecycle> {
    match c case Pause => Some(Paused) case Resume(_, _) => Some(Running) case _ => None
  }

  /** Of any commands queued together the newest pause or resume decides whether the service
      runs, resets and inspections notwithstanding. */
  lemma {:induction false} NewestWishDecides(s: State, commands: seq<Command>)
    requires !s.lifecycle.Ended? && Shutdown !in commands
    requires forall i | 0 <= i < |commands| && commands[i].Resume? :: commands[i].steppable
    ensures CommandedAll(s, commands).lifecycle == Latest(commands, WishOf, s.lifecycle)
    decreases |commands|
  {
    if commands != [] {
      assert commands[0] != Shutdown;
      LatestFromFront(commands, WishOf, s.lifecycle);
      NewestWishDecides(Commanded(s, commands[0]), commands[1..]);
      hide Latest;
    }
  }

  /** An engine error ends the service. A breakpoint pauses it at its address and cancels the
      limit. Any other stop pauses it exactly when the limit is used up. */
  lemma StopEffects(s: State, stop: Backend.Stop)
    requires s.lifecycle == Running
    ensures var r := Settled(s, stop);
      && r.cpu == s.cpu && r.scheduled == s.scheduled && r.deadline == s.deadline
      && (stop.EngineError? ==> r.lifecycle == Ended)
      && (stop.Breakpoint? ==> r.lifecycle == Paused && r.breakpoint == Some(stop.address) && r.remaining.None? && r.log == s.log)
      && (!stop.EngineError? && !stop.Breakpoint? ==>
            r == if s.remaining == Some(0) then s.(lifecycle := Paused, remaining := None, log := s.log + [LimitPause]) else s)
  {}

  /** A turn whose batch stops at a breakpoint leaves the service paused at its address. */
  lemma BreakpointPauses(s: State, batch: nat, o: Backend.Oracle, address: u32)
    requires s.lifecycle == Running && (s.deadline.Some? ==> s.cpu.ticks < s.deadline.value)
    requires var ready := DeliveredDue(s); Backend.Ran(ready.cpu, Budget(ready, batch), Boundary(ready), o).1 == Backend.Breakpoint(address)
    ensures var r := RunningTurn(s, batch, o);
      r.lifecycle == Paused && r.breakpoint == Some(address) && r.remaining.None?
  {
    DeliveryOnlyDelivers(s);
    hide DeliveredDue, Budget, Boundary, Backend.Ran;
  }

  /** A turn at the deadline pauses the service and runs nothing. */
  lemma DeadlinePauses(s: State, batch: nat, o: Backend.Oracle)
    requires s.lifecycle == Running && s.deadline.Some? && s.deadline.value <= s.cpu.ticks
    ensures var r := RunningTurn(s, batch, o);
      r.lifecycle == Paused && r.cpu == s.cpu && r.log != [] && r.log[|r.log| - 1] == DeadlinePause(s.cpu.ticks)
  {
    DeliveryOnlyDelivers(s);
    hide DeliveredDue;
  }

  /** Turns that bring no command but pauses and inspections. */
  predicate Quiet(t: Turn) {
    && (forall i | 0 <= i < |t.commands| :: t.commands[i].Pause? || t.commands[i].Inspect?)
    && (t.waited.Some? ==> t.waited.value.Pause? || t.waited.value.Inspect?)
  }

  lemma {:induction false} PauseAndInspectDoNothing(s: State, commands: seq<Command>)
    requires !s.lifecycle.Running? && forall i | 0 <= i < |commands| :: commands[i].Pause? || commands[i].Inspect?
    ensures CommandedAll(s, commands) == s
    decreases |commands|
  {
    if commands != [] && !s.lifecycle.Ended? {
      assert commands[0].Pause? || commands[0].Inspect?;
      PauseAndInspectDoNothing(s, commands[1..]);
    }
  }

  /** A paused service stays as it is until it is told otherwise: no time passes, and no input is
      delivered. */
  lemma {:induction false} PausedIsIdle(s: State, batch: nat, turns: seq<Turn>)
    requires !s.lifecycle.Running? && forall i | 0 <= i < |turns| :: Quiet(turns[i])
    ensures Run(s, batch, turns) == s
    decreases |turns|
  {
    if turns != [] && !s.lifecycle.Ended? {
      assert Quiet(turns[0]);
      PauseAndInspectDoNothing(s, turns[0].commands);
      PausedIsIdle(s, batch, turns[1..]);
      hide Run;
    }
  }

  /** A service configured to start paused waits at tick 0 for a resume; any other runs at once,
      without a limit. */
  lemma StartsAsConfigured(startPaused: bool, deadline: Option<nat>, inputs: seq<Input>, batch: nat, turns: seq<Turn>)
    requires forall i | 0 <= i < |turns| :: Quiet(turns[i])
    ensures var s := Initial(startPaused, deadline, inputs);
      && s.lifecycle == (if startPaused then Paused else Running) && s.remaining.None? && s.breakpoint.None?
      && s.cpu.ticks == 0 && s.cpu.deferred.None? && s.log == [] && s.deadline == deadline
      && (startPaused ==> Run(s, batch, turns) == s)
  {
    if startPaused { PausedIsIdle(Initial(startPaused, deadline, inputs), batch, turns); }
    hide Run, Schedule;
  }

  // ---- Budgets ----

  /** A batch gets as many instructions as it may have: a number is within its budget exactly
      when it is within batch size and limit, and passes neither the deadline nor the next input. */
  lemma BudgetIsExact(s: State, batch: nat, n: nat)
    ensures n <= Budget(s, batch) <==>
      && n <= batch && (s.remaining.Some? ==> n <= s.remaining.value)
      && (s.deadline.Some? && s.cpu.ticks < s.deadline.value ==> s.cpu.ticks + n <= s.deadline.value)
      && (s.scheduled != [] && s.cpu.ticks < s.scheduled[0].atTick ==> s.cpu.ticks + n <= s.scheduled[0].atTick)
  {}

  // ---- Bounded work ends ----

  /** A turn without commands whose engine starts and executes something, and meets neither an
      error nor a breakpoint. */
  predicate Steady(t: Turn) {
    && t.commands == [] && t.waited.None?
    && t.oracle.startable && 0 < t.oracle.executed && t.oracle.engineOk && t.oracle.registersOk
    && !t.oracle.callback.HitBreakpoint?
  }

  lemma SteadyStop(c: Backend.Cpu, budget: nat, deadline: Option<nat>, o: Backend.Oracle)
    requires o.startable && o.engineOk && o.registersOk && !o.callback.HitBreakpoint?
    ensures var stop := Backend.Ran(c, budget, deadline, o).1; !stop.EngineError? && !stop.Breakpoint?
  {}

  /** One such turn takes time, and pauses the service as soon as n ticks are used. */
  lemma SteadyTurn(s: State, batch: nat, t: Turn, n: nat)
    requires s.lifecycle == Running && s.remaining == Some(n) && 0 < n && 0 < batch && Steady(t)
    requires s.deadline.Some? ==> s.cpu.ticks + n <= s.deadline.value
    ensures var r := Step(s, batch, t);
      && r.deadline == s.deadline && s.cpu.ticks < r.cpu.ticks <= s.cpu.ticks + n + 1
      && if r.cpu.ticks < s.cpu.ticks + n
         then r.lifecycle == Running && r.remaining == Some(s.cpu.ticks + n - r.cpu.ticks)
         else r.lifecycle == Paused && r.remaining.None? && r.log != [] && r.log[|r.log| - 1] == LimitPause
  {
    DeliveryOnlyDelivers(s);
    var ready := DeliveredDue(s);
    var budget, boundary := Budget(ready, batch), Boundary(ready);
    BatchBounds(ready, batch, t.oracle);
    Backend.EveryRunAdvances(ready.cpu, budget, boundary, t.oracle);
    SteadyStop(ready.cpu, budget, boundary, t.oracle);
    assert CommandedAll(s, t.commands) == s;
    hide DeliveredDue, Backend.Ran, Budget, Boundary, CommandedAll;
  }

  ghost predicate AllSteady(turns: seq<Turn>) { forall i | 0 <= i < |turns| :: Steady(turns[i]) }

  lemma SteadyTurns(turns: seq<Turn>)
    requires AllSteady(turns) && turns != []
    ensures Steady(turns[0]) && AllSteady(turns[1..]) && forall i | 0 <= i < |turns| - 1 :: Quiet(turns[1..][i])
  {
    forall i | 0 <= i < |turns| - 1 ensures Quiet(turns[1..][i]) { assert Steady(turns[i + 1]); }
  }

  /** A bounded resume of n ticks ends: if each turn's engine executes at least one instruction
      and meets no error or breakpoint, n turns are enough for the service to be paused by its
      limit, n or n + 1 ticks later. */
  lemma {:induction false} BoundedResumeEnds(s: State, batch: nat, turns: seq<Turn>, n: nat)
    requires s.lifecycle == Running && s.remaining == Some(n) && 0 < n <= |turns| && 0 < batch
    requires s.deadline.Some? ==> s.cpu.ticks + n <= s.deadline.value
    requires AllSteady(turns)
    ensures var r := Run(s, batch, turns);
      && r.lifecycle == Paused && r.remaining.None? && r.log != [] && r.log[|r.log| - 1] == LimitPause
      && s.cpu.ticks + n <= r.cpu.ticks <= s.cpu.ticks + n + 1
    decreases |turns|
  {
    hide Step, Steady, Quiet, AllSteady;
    SteadyTurns(turns);
    SteadyTurn(s, batch, turns[0], n);
    var r := Step(s, batch, turns[0]);
    assert Run(s, batch, turns) == Run(r, batch, turns[1..]);
    hide Run;
    if r.lifecycle == Running {
      BoundedResumeEnds(r, batch, turns[1..], s.cpu.ticks + n - r.cpu.ticks);
    } else {
      PausedIsIdle(r, batch, turns[1..]);
    }
  }
}
