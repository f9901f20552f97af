/** Virtual-time accounting around a bounded engine run
    (crates/minemu-unicorn/src/backend.rs). The engine is an oracle: it executes at most
    the instruction count it is started with and reports why it stopped. */
module Backend {
  import opened Platform

  datatype Kind = Undefined | SupervisorCall | PrefetchAbort | DataAbort | Interrupt

  datatype Stop =
    | InstructionBudget
    | Breakpoint(address: u32)
    | Cp15Boundary
    | Entered(kind: Kind)
    | EngineError

  datatype Callback = NoCallback | HitBreakpoint(address: u32) | MmuFault(fetch: bool) | MmioFault(fetch: bool)

  datatype Cp15 = NoCp15 | Operation | UndefinedCp15

  /** What the engine and the CPU registers answer during one backend run. `irqBefore` and
      `irqAfter` say whether an unmasked interrupt can be claimed at those boundaries. */
  datatype Oracle = Oracle(
    irqBefore: bool, startable: bool, executed: nat, callback: Callback, trap: Option<Kind>,
    cp15: Cp15, engineOk: bool, irqAfter: bool, registersOk: bool)
  {
    /** The last counted instruction did not complete. */
    predicate Faulting() {
      cp15.UndefinedCp15? || trap.Some? || callback.MmuFault? || callback.MmioFault?
    }
  }

  /** Virtual time and a trap whose entry waits beyond a deadline. */
  datatype Cpu = Cpu(ticks: nat, deferred: Option<Kind>)

  predicate Reached(ticks: nat, deadline: Option<nat>) { deadline.Some? && deadline.value <= ticks }

  function Min(a: nat, b: nat): nat { if a < b then a else b }

  /** The instruction count handed to the engine, which takes zero to mean no limit. */
  function EngineBudget(ticks: nat, budget: nat, deadline: Option<nat>): nat
    requires !Reached(ticks, deadline)
  {
    if deadline.Some? then Min(budget, deadline.value - ticks) else budget
  }

  /** Instructions charged as completed: all but a faulting last one. */
  function Completed(executed: nat, o: Oracle): nat {
    if o.Faulting() && 0 < executed then executed - 1 else executed
  }

  function Entry(kind: Kind, o: Oracle): Stop { if o.registersOk then Entered(kind) else EngineError }

  /** `finish_synchronous_exception`: one tick for the trapping instruction and one for the
      entry, which is deferred when only the first fits before the deadline. */
  function Trapped(ticks: nat, kind: Kind, deadline: Option<nat>, o: Oracle): (Cpu, Stop) {
    if deadline == Some(ticks + 1) then (Cpu(ticks + 1, Some(kind)), InstructionBudget)
    else (Cpu(ticks + 2, None), Entry(kind, o))
  }

  /** The end of an engine run that executed `executed` instructions from `ticks`. */
  function Finished(start: nat, executed: nat, deadline: Option<nat>, o: Oracle): (Cpu, Stop) {
    var ticks := start + Completed(executed, o);
    match o.callback
    case HitBreakpoint(address) => (Cpu(ticks, None), Breakpoint(address))
    case MmuFault(fetch) => (Cpu(ticks + 1, None), Entry(if fetch then PrefetchAbort else DataAbort, o))
    case MmioFault(fetch) => (Cpu(ticks + 1, None), Entry(if fetch then PrefetchAbort else DataAbort, o))
    case NoCallback =>
      if o.trap.Some? then Trapped(ticks, o.trap.value, deadline, o)
      else if o.cp15.UndefinedCp15? then Trapped(ticks, Undefined, deadline, o)
      else if o.cp15.Operation? then (Cpu(ticks, None), if o.registersOk then Cp15Boundary else EngineError)
      else if !Reached(ticks, deadline) && o.irqAfter then (Cpu(ticks + 1, None), Entry(Interrupt, o))
      else (Cpu(ticks, None), if o.engineOk then InstructionBudget else EngineError)
  }

  /** `run_with_tick_deadline`. */
  function Ran(c: Cpu, budget: nat, deadline: Option<nat>, o: Oracle): (Cpu, Stop) {
    if Reached(c.ticks, deadline) then (c, InstructionBudget)
    else if c.deferred.Some? then (Cpu(c.ticks + 1, None), Entry(c.deferred.value, o))
    else if deadline.Some? && o.irqBefore then (Cpu(c.ticks + 1, None), Entry(Interrupt, o))
    else if !o.startable then (c, EngineError)
    else Finished(c.ticks, Min(o.executed, EngineBudget(c.ticks, budget, deadline)), deadline, o)
  }

  class UnicornBackend {
    var ticks: nat
    var deferredException: Option<Kind>

    function Value(): Cpu
      reads this
    {
      Cpu(ticks, deferredException)
    }

    constructor ()
      ensures Value() == Cpu(0, None)
    {
      ticks, deferredException := 0, None;
    }

    /** `finish_instruction(Completed)` for each of `count` instructions. */
    method CompleteInstructions(count: nat)
      modifies this`ticks
      ensures ticks == old(ticks) + count
    {
      for i := 0 to count
        invariant ticks == old(ticks) + i
      {
        ticks := ticks + 1;
      }
    }

    /** `enter_exception`: one tick, then the register writes. */
    method EnterException(kind: Kind, o: Oracle) returns (stop: Stop)
      modifies this`ticks
      ensures ticks == old(ticks) + 1 && stop == Entry(kind, o)
    {
      ticks := ticks + 1;
      stop := if o.registersOk then Entered(kind) else EngineError;
    }

    method ResumeDeferred(deadline: Option<nat>, o: Oracle) returns (stop: Option<Stop>)
      modifies this
      ensures old(deferredException).None? ==> stop == None && Value() == old(Value())
      ensures old(deferredException).Some? && Reached(old(ticks), deadline) ==>
                stop == Some(InstructionBudget) && Value() == old(Value())
      ensures old(deferredException).Some? && !Reached(old(ticks), deadline) ==>
                stop == Some(Entry(old(deferredException).value, o)) && Value() == Cpu(old(ticks) + 1, None)
    {
      if deferredException.None? { return None; }
      if Reached(ticks, deadline) { return Some(InstructionBudget); }
      var kind := deferredException.value;
      deferredException := None;
      var entered := EnterException(kind, o);
      return Some(entered);
    }

    method FinishTrap(kind: Kind, deadline: Option<nat>, o: Oracle) returns (stop: Stop)
      requires deferredException.None?
      modifies this
      ensures (Value(), stop) == Trapped(old(ticks), kind, deadline, o)
    {
      if deadline.Some? && ticks + 1 == deadline.value {
        CompleteInstructions(1);
        deferredException := Some(kind);
        return InstructionBudget;
      }
      CompleteInstructions(1);
      stop := EnterException(kind, o);
    }

    /** `run_with_tick_deadline`. */
    method RunWithTickDeadline(budget: nat, deadline: Option<nat>, o: Oracle) returns (stop: Stop)
      modifies this
      ensures (Value(), stop) == Ran(old(Value()), budget, deadline, o)
    {
      var resumed := ResumeDeferred(deadline, o);
      if resumed.Some? { return resumed.value; }
      if Reached(ticks, deadline) { return InstructionBudget; }
      if deadline.Some? && o.irqBefore {
        stop := EnterException(Interrupt, o);
        return;
      }
      var count := EngineBudget(ticks, budget, deadline);
      if !o.startable { return EngineError; }
      var executed := Min(o.executed, count);
      var completed := if o.Faulting() && executed != 0 then executed - 1 else executed;
      CompleteInstructions(completed);
      match o.callback {
        case HitBreakpoint(address) => return Breakpoint(address);
        case MmuFault(fetch) => stop := EnterException(if fetch then PrefetchAbort else DataAbort, o); return;
        case MmioFault(fetch) => stop := EnterException(if fetch then PrefetchAbort else DataAbort, o); return;
        case NoCallback =>
      }
      if o.trap.Some? {
        stop := FinishTrap(o.trap.value, deadline, o);
        return;
      }
      if o.cp15.UndefinedCp15? {
        stop := FinishTrap(Undefined, deadline, o);
        return;
      }
      if o.cp15.Operation? {
        return if o.registersOk then Cp15Boundary else EngineError;
      }
      if !Reached(ticks, deadline) && o.irqAfter {
        stop := EnterException(Interrupt, o);
        return;
      }
      return if o.engineOk then InstructionBudget else EngineError;
    }
  }

  // ---- Guarantees for every oracle ----

  /** The engine is never started without a limit. */
  lemma EngineIsAlwaysBounded(ticks: nat, budget: nat, deadline: Option<nat>)
    requires 0 < budget && !Reached(ticks, deadline)
    ensures 0 < EngineBudget(ticks, budget, deadline) <= budget
    ensures deadline.Some? ==> ticks + EngineBudget(ticks, budget, deadline) <= deadline.value
  {}

  /** Whatever the engine does, virtual time stops at the deadline at the latest. */
  lemma DeadlineIsNeverPassed(c: Cpu, budget: nat, deadline: nat, o: Oracle)
    requires c.ticks <= deadline
    ensures c.ticks <= Ran(c, budget, Some(deadline), o).0.ticks <= deadline
  {}

  /** A run costs at most one tick more than its budget, and exactly that only by entering
      an exception. */
  lemma RunCost(c: Cpu, budget: nat, deadline: Option<nat>, o: Oracle)
    requires 0 < budget
    ensures var (after, stop) := Ran(c, budget, deadline, o);
      && c.ticks <= after.ticks <= c.ticks + budget + 1
      && (after.ticks == c.ticks + budget + 1 ==>
            stop.Entered? || stop.EngineError?)
  {}

  /** A deadline that falls between a trap's two ticks only splits them: resuming later
      reaches the tick and the stop that a run without the deadline reaches at once. */
  lemma SplitTrapIsWhole(c: Cpu, budget: nat, deadline: nat, o: Oracle, next: Oracle, nextBudget: nat, nextDeadline: Option<nat>)
    requires 0 < budget && c.deferred.None? && next.registersOk == o.registersOk
    requires Ran(c, budget, Some(deadline), o).0.deferred.Some?
    requires nextDeadline.Some? ==> deadline < nextDeadline.value
    requires !o.irqBefore && c.ticks + o.executed <= deadline && o.executed <= budget
    ensures Ran(c, budget, Some(deadline), o).0.ticks == deadline
    ensures Ran(Ran(c, budget, Some(deadline), o).0, nextBudget, nextDeadline, next) == Ran(c, budget, None, o)
  {}

  // ---- Exactly what a run costs ----

  /** Nothing keeps the engine from starting, and it then executes `e` instructions: as many as
      it would, the budget or the deadline allows. */
  predicate Runs(c: Cpu, budget: nat, deadline: Option<nat>, o: Oracle, e: nat) {
    && c.deferred.None? && o.startable && (deadline.Some? ==> c.ticks < deadline.value && !o.irqBefore)
    && e <= o.executed && e <= budget && (deadline.Some? ==> c.ticks + e <= deadline.value)
    && (e == o.executed || e == budget || deadline == Some(c.ticks + e))
  }

  /** Instructions that all complete cost one tick each; an interrupt taken behind them costs
      one more, and is not taken at the deadline. */
  lemma PlainCharge(c: Cpu, budget: nat, deadline: Option<nat>, o: Oracle, e: nat)
    requires Runs(c, budget, deadline, o, e) && o.trap.None? && !o.cp15.UndefinedCp15?
    requires o.callback.NoCallback? || o.callback.HitBreakpoint?
    ensures var (after, stop) := Ran(c, budget, deadline, o);
      var taken := o.callback.NoCallback? && o.cp15.NoCp15? && o.irqAfter && deadline != Some(c.ticks + e);
      && after == Cpu(c.ticks + e + (if taken then 1 else 0), None)
      && (o.callback.HitBreakpoint? ==> stop == Breakpoint(o.callback.address))
      && (o.callback.NoCallback? && o.cp15.Operation? ==> stop == if o.registersOk then Cp15Boundary else EngineError)
      && (taken ==> stop == if o.registersOk then Entered(Interrupt) else EngineError)
      && (o.callback.NoCallback? && o.cp15.NoCp15? && !taken ==> stop == if o.engineOk then InstructionBudget else EngineError)
  {}

  /** A faulting last instruction costs no tick, but entering its abort costs one: a prefetch
      abort for a fetch, a data abort for any other access. */
  lemma FaultCharge(c: Cpu, budget: nat, deadline: Option<nat>, o: Oracle, e: nat)
    requires Runs(c, budget, deadline, o, e) && 0 < e && (o.callback.MmuFault? || o.callback.MmioFault?)
    ensures var (after, stop) := Ran(c, budget, deadline, o);
      && after == Cpu(c.ticks + e, None)
      && stop == if !o.registersOk then EngineError else if o.callback.fetch then Entered(PrefetchAbort) else Entered(DataAbort)
  {}

  /** A trapping last instruction costs one tick and its entry another. When the deadline falls
      between the two, the entry waits. */
  lemma TrapCharge(c: Cpu, budget: nat, deadline: Option<nat>, o: Oracle, e: nat)
    requires Runs(c, budget, deadline, o, e) && 0 < e && o.callback.NoCallback? && (o.trap.Some? || o.cp15.UndefinedCp15?)
    ensures var kind := if o.trap.Some? then o.trap.value else Undefined;
      Ran(c, budget, deadline, o) ==
        if deadline == Some(c.ticks + e) then (Cpu(c.ticks + e, Some(kind)), InstructionBudget)
        else (Cpu(c.ticks + e + 1, None), if o.registersOk then Entered(kind) else EngineError)
  {}

  /** An entry that waited, or an interrupt taken before the engine starts, costs one tick, and
      nothing happens at a reached deadline. */
  lemma EntryCharge(c: Cpu, budget: nat, deadline: Option<nat>, o: Oracle)
    requires c.deferred.Some? || (deadline.Some? && o.irqBefore)
    ensures var kind := if c.deferred.Some? then c.deferred.value else Interrupt;
      Ran(c, budget, deadline, o) ==
        if deadline.Some? && deadline.value <= c.ticks then (c, InstructionBudget)
        else (Cpu(c.ticks + 1, None), if o.registersOk then Entered(kind) else EngineError)
  {}

  /** A run before the deadline whose engine executes anything takes time, unless it stops at a
      breakpoint. */
  lemma EveryRunAdvances(c: Cpu, budget: nat, deadline: Option<nat>, o: Oracle)
    requires 0 < budget && (deadline.Some? ==> c.ticks < deadline.value)
    requires o.startable && 0 < o.executed && !o.callback.HitBreakpoint?
    ensures c.ticks < Ran(c, budget, deadline, o).0.ticks
  {}
}
