/** The emulator service loop: scheduled UART inputs, the execution deadline and bounded
    resumes over the backend (crates/minemu-runtime/src/service.rs). */
module Scheduler {
  import opened Platform
  import Backend
  import Sorting

  datatype Input = Input(atTick: nat, port: nat, bytes: seq<u8>)

  /** What the emulator answers to a reset: it fails before or after the backend is replaced,
      or it succeeds. */
  datatype ResetOutcome = Untouched | Replaced | Restarted

  /** `Resume` with `Some(n)` runs n instructions, n nonzero; its flag is the emulator's answer
      whether the breakpoint can be stepped. */
  datatype Command =
    | Pause
    | Resume(limit: Option<nat>, steppable: bool)
    | Reset(outcome: ResetOutcome)
    | Shutdown
    | Inspect
  {
    predicate Valid() { Resume? && limit.Some? ==> limit.value != 0 }
  }

  datatype Lifecycle = Running | Paused | Ended

  /** What an observer of the emulator thread sees, with the tick at which it happens. */
  datatype Entry =
    | Resumed(limit: Option<nat>)
    | Delivered(tick: nat, input: Input)
    | DeadlinePause(tick: nat)
    | Batch(tick: nat, budget: nat, ticksAfter: nat)
    | LimitPause

  datatype State = State(
    lifecycle: Lifecycle, cpu: Backend.Cpu, remaining: Option<nat>, breakpoint: Option<u32>,
    deadline: Option<nat>, scheduled: seq<Input>, log: seq<Entry>)

  /** One turn of the loop: the queued commands, the command a paused service waits for,
      and the engine's answers. */
  datatype Turn = Turn(commands: seq<Command>, waited: Option<Command>, oracle: Backend.Oracle) {
    predicate Valid() {
      && (forall i | 0 <= i < |commands| :: commands[i].Valid())
      && (waited.Some? ==> waited.value.Valid())
    }
  }

  // ---- The schedule ----

  predicate Earlier(a: Input, b: Input) { a.atTick <= b.atTick }

  /** `Service::new` sorts the inputs by tick. */
  function Schedule(inputs: seq<Input>): seq<Input> {
    Sorting.Sort(inputs, Earlier)
  }

  /** The schedule is in tick order, holds the same inputs, and keeps submission order
      among inputs of one tick. */
  lemma ScheduleIsStable(inputs: seq<Input>, tick: nat)
    ensures Sorting.Sorted(Schedule(inputs), Earlier)
    ensures multiset(Schedule(inputs)) == multiset(inputs)
    ensures Sorting.Select(Schedule(inputs), (i: Input) => i.atTick == tick)
         == Sorting.Select(inputs, (i: Input) => i.atTick == tick)
  {
    Sorting.SortSorts(inputs, Earlier);
    Sorting.SortIsStable(inputs, Earlier, (i: Input) => i.atTick == tick);
  }

  // ---- One turn of the loop ----

  /** `process_command`; a service that must stop has lifecycle `Ended`. */
  function Commanded(s: State, c: Command): State {
    match c
    case Pause => if s.lifecycle.Running? then s.(lifecycle := Paused, remaining := None) else s
    case Resume(limit, steppable) =>
      if !s.lifecycle.Paused? then s
      else if s.breakpoint.Some? && !steppable then s.(lifecycle := Ended, breakpoint := None)
      else s.(lifecycle := Running, breakpoint := None, remaining := limit, log := s.log + [Resumed(limit)])
    case Reset(outcome) =>
      if s.lifecycle.Ended? || outcome.Untouched? then s
      else s.(cpu := Backend.Cpu(0, None), breakpoint := if outcome.Restarted? then None else s.breakpoint)
    case Shutdown => s.(lifecycle := Ended)
    case Inspect => s
  }

  function CommandedAll(s: State, commands: seq<Command>): State
    decreases |commands|
  {
    if commands == [] || s.lifecycle.Ended? then s else CommandedAll(Commanded(s, commands[0]), commands[1..])
  }

  /** Delivers every input whose tick has come. */
  function DeliveredDue(s: State): State
    decreases |s.scheduled|
  {
    if s.scheduled == [] || s.scheduled[0].atTick > s.cpu.ticks then s
    else DeliveredDue(s.(scheduled := s.scheduled[1..], log := s.log + [Delivered(s.cpu.ticks, s.scheduled[0])]))
  }

  /** The next tick at which the service itself must act. */
  function Boundary(s: State): (boundary: Option<nat>)
    ensures boundary.Some? ==> s.cpu.ticks < boundary.value
  {
    var input := if s.scheduled != [] && s.scheduled[0].atTick > s.cpu.ticks then Some(s.scheduled[0].atTick) else None;
    var deadline := if s.deadline.Some? && s.deadline.value > s.cpu.ticks then s.deadline else None;
    if input.None? then deadline
    else if deadline.None? then input
    else Some(Backend.Min(input.value, deadline.value))
  }

  /** The batch, clipped to the remaining instructions and to the boundary. */
  function Budget(s: State, batch: nat): nat {
    var limited := if s.remaining.Some? then Backend.Min(s.remaining.value, batch) else batch;
    var boundary := Boundary(s);
    if boundary.Some? then Backend.Min(limited, boundary.value - s.cpu.ticks) else limited
  }

  function MinusTo0(a: nat, b: nat): nat { if a < b then 0 else a - b }

  /** What a batch's stop means for the service. */
  function Settled(s: State, stop: Backend.Stop): State {
    match stop
    case EngineError => s.(lifecycle := Ended)
    case Breakpoint(address) => s.(lifecycle := Paused, remaining := None, breakpoint := Some(address))
    case _ =>
      if s.remaining == Some(0)
      then s.(lifecycle := Paused, remaining := None, log := s.log + [LimitPause])
      else s
  }

  /** The state right after a batch that ended in `cpu`. */
  function Accounted(s: State, budget: nat, cpu: Backend.Cpu): State {
    var used := MinusTo0(cpu.ticks, s.cpu.ticks);
    s.(cpu := cpu, remaining := if s.remaining.Some? then Some(MinusTo0(s.remaining.value, used)) else None,
       log := s.log + [Batch(s.cpu.ticks, budget, cpu.ticks)])
  }

  /** One batch and its accounting. */
  function Executed(s: State, batch: nat, o: Backend.Oracle): State {
    var (cpu, stop) := Backend.Ran(s.cpu, Budget(s, batch), Boundary(s), o);
    Settled(Accounted(s, Budget(s, batch), cpu), stop)
  }

  function RunningTurn(s: State, batch: nat, o: Backend.Oracle): State {
    var ready := DeliveredDue(s);
    if Backend.Reached(ready.cpu.ticks, ready.deadline)
    then ready.(lifecycle := Paused, log := ready.log + [DeadlinePause(ready.cpu.ticks)])
    else Executed(ready, batch, o)
  }

  function Step(s: State, batch: nat, t: Turn): State {
    var c := CommandedAll(s, t.commands);
    match c.lifecycle
    case Ended => c
    case Running => RunningTurn(c, batch, t.oracle)
    case Paused => if t.waited.Some? then Commanded(c, t.waited.value) else c
  }

  function Run(s: State, batch: nat, turns: seq<Turn>): State
    decreases |turns|
  {
    if turns == [] || s.lifecycle.Ended? then s else Run(Step(s, batch, turns[0]), batch, turns[1..])
  }

  function Initial(startPaused: bool, deadline: Option<nat>, inputs: seq<Input>): State {
    State(if startPaused then Paused else Running, Backend.Cpu(0, None), None, None, deadline, Schedule(inputs), [])
  }

  // ---- The service as it runs ----

  class Service {
    const batch: nat
    var lifecycle: Lifecycle
    var remaining: Option<nat>
    var breakpoint: Option<u32>
    const deadline: Option<nat>
    var scheduled: seq<Input>
    var log: seq<Entry>
    var backend: Backend.UnicornBackend

    function Value(): State
      reads this, backend
    {
      State(lifecycle, backend.Value(), remaining, breakpoint, deadline, scheduled, log)
    }

    constructor (batchSize: nat, startPaused: bool, until: Option<nat>, inputs: seq<Input>)
      ensures Value() == Initial(startPaused, until, inputs) && fresh(backend)
      ensures batch == if batchSize == 0 then 1 else batchSize
    {
      batch := if batchSize == 0 then 1 else batchSize;
      lifecycle := if startPaused then Paused else Running;
      remaining, breakpoint, deadline := None, None, until;
      scheduled, log := Schedule(inputs), [];
      backend := new Backend.UnicornBackend();
    }

    method ProcessCommand(c: Command)
      modifies this, backend
      ensures Value() == Commanded(old(Value()), c)
      ensures backend == old(backend) || fresh(backend)
    {
      match c {
        case Pause =>
          if lifecycle.Running? { lifecycle, remaining := Paused, None; }
        case Resume(limit, steppable) =>
          if lifecycle.Paused? {
            var stopped := breakpoint;
            breakpoint := None;
            if stopped.Some? && !steppable {
              lifecycle := Ended;
            } else {
              remaining, lifecycle := limit, Running;
              log := log + [Resumed(limit)];
            }
          }
        case Reset(outcome) =>
          if !lifecycle.Ended? {
            if !outcome.Untouched? { backend := new Backend.UnicornBackend(); }
            if outcome.Restarted? { breakpoint := None; }
          }
        case Shutdown => lifecycle := Ended;
        case Inspect =>
      }
    }

    method ProcessCommands(commands: seq<Command>)
      modifies this, backend
      ensures Value() == CommandedAll(old(Value()), commands)
      ensures backend == old(backend) || fresh(backend)
    {
      var i := 0;
      while i < |commands| && !lifecycle.Ended?
        invariant 0 <= i <= |commands|
        invariant backend == old(backend) || fresh(backend)
        invariant CommandedAll(Value(), commands[i..]) == CommandedAll(old(Value()), commands)
      {
        ProcessCommand(commands[i]);
        i := i + 1;
      }
    }

    /** The delivery loop: every input due at the current tick, in schedule order. */
    method DeliverDue()
      modifies this`log, this`scheduled
      ensures Value() == DeliveredDue(old(Value()))
    {
      while scheduled != [] && scheduled[0].atTick <= backend.ticks
        invariant DeliveredDue(Value()) == DeliveredDue(old(Value()))
        decreases |scheduled|
      {
        log, scheduled := log + [Delivered(backend.ticks, scheduled[0])], scheduled[1..];
      }
    }

    /** The running part of the loop body: deliver what is due, stop at the deadline, or
        run one clipped batch and account for it. */
    method RunBatch(o: Backend.Oracle)
      requires lifecycle.Running?
      modifies this, backend
      ensures Value() == RunningTurn(old(Value()), batch, o) && backend == old(backend)
    {
      hide Backend.Ran, DeliveredDue, Settled;
      DeliverDue();
      var currentTick := backend.ticks;
      if deadline.Some? && currentTick >= deadline.value {
        lifecycle := Paused;
        log := log + [DeadlinePause(currentTick)];
        return;
      }
      var instructionBudget := if remaining.Some? then Backend.Min(remaining.value, batch) else batch;
      var tickBoundary := Boundary(Value());
      if tickBoundary.Some? {
        instructionBudget := Backend.Min(instructionBudget, tickBoundary.value - currentTick);
      }
      var stop := backend.RunWithTickDeadline(instructionBudget, tickBoundary, o);
      var executed := MinusTo0(backend.ticks, currentTick);
      if remaining.Some? { remaining := Some(MinusTo0(remaining.value, executed)); }
      log := log + [Batch(currentTick, instructionBudget, backend.ticks)];
      HandleStop(stop);
    }

    method HandleStop(stop: Backend.Stop)
      modifies this`lifecycle, this`remaining, this`breakpoint, this`log
      ensures Value() == Settled(old(Value()), stop)
    {
      match stop {
        case EngineError => lifecycle := Ended;
        case Breakpoint(address) => lifecycle, remaining, breakpoint := Paused, None, Some(address);
        case _ =>
          if remaining == Some(0) {
            lifecycle, remaining := Paused, None;
            log := log + [LimitPause];
          }
      }
    }

    /** The service loop over any sequence of turns. */
    method RunLoop(turns: seq<Turn>)
      modifies this, backend
      ensures Value() == Run(old(Value()), batch, turns)
    {
      var i := 0;
      while i < |turns| && !lifecycle.Ended?
        invariant 0 <= i <= |turns|
        invariant backend == old(backend) || fresh(backend)
        invariant Run(Value(), batch, turns[i..]) == Run(old(Value()), batch, turns)
      {
        ProcessCommands(turns[i].commands);
        match lifecycle {
          case Ended =>
          case Running => RunBatch(turns[i].oracle);
          case Paused =>
            if turns[i].waited.Some? { ProcessCommand(turns[i].waited.value); }
        }
        i := i + 1;
      }
    }
  }

  // ---- Guarantees over every run ----

  /** The instruction limit of the latest resume. */
  function Limit(log: seq<Entry>): Option<nat> {
    if log == [] then None
    else if log[|log| - 1].Resumed? then log[|log| - 1].limit
    else Limit(log[..|log| - 1])
  }

  /** The ticks of all batches since the latest resume. */
  function Spent(log: seq<Entry>): int {
    if log == [] || log[|log| - 1].Resumed? then 0
    else
      var last := log[|log| - 1];
      Spent(log[..|log| - 1]) + if last.Batch? then last.ticksAfter - last.tick else 0
  }

  /** What the log entry at `i` promises, for a given deadline. */
  ghost predicate Exact(log: seq<Entry>, i: nat, deadline: Option<nat>)
    requires i < |log|
  {
    match log[i]
    case Resumed(_) => true
    case Delivered(tick, input) => tick == input.atTick
    case DeadlinePause(tick) => Some(tick) == deadline
    case Batch(tick, budget, ticksAfter) => 0 < budget && tick <= ticksAfter <= tick + budget + 1
    case LimitPause => var n := Limit(log[..i]); n.Some? && n.value <= Spent(log[..i]) <= n.value + 1
  }

  ghost predicate AllExact(log: seq<Entry>, deadline: Option<nat>) {
    forall i | 0 <= i < |log| :: Exact(log, i, deadline)
  }

  function DeliveredInputs(log: seq<Entry>): seq<Input> {
    if log == [] then []
    else
      var rest, last := DeliveredInputs(log[..|log| - 1]), log[|log| - 1];
      if last.Delivered? then rest + [last.input] else rest
  }

  /** The invariant of the loop: no undelivered input and no deadline lies in the past,
      inputs leave the schedule in order, and a bounded resume accounts for its ticks. */
  ghost predicate Inv(s: State, schedule: seq<Input>) {
    && Sorting.Sorted(s.scheduled, Earlier)
    && (s.scheduled != [] ==> s.cpu.ticks <= s.scheduled[0].atTick)
    && (s.deadline.Some? ==> s.cpu.ticks <= s.deadline.value)
    && DeliveredInputs(s.log) + s.scheduled == schedule
    && (s.lifecycle.Running? && s.remaining.Some? ==>
          0 < s.remaining.value && Limit(s.log) == Some(Spent(s.log) + s.remaining.value))
    && AllExact(s.log, s.deadline)
  }

  lemma LogGrows(log: seq<Entry>, e: Entry, deadline: Option<nat>)
    ensures DeliveredInputs(log + [e]) == DeliveredInputs(log) + if e.Delivered? then [e.input] else []
    ensures Limit(log + [e]) == if e.Resumed? then e.limit else Limit(log)
    ensures Spent(log + [e]) == if e.Resumed? then 0 else Spent(log) + if e.Batch? then e.ticksAfter - e.tick else 0
    ensures AllExact(log, deadline) && Exact(log + [e], |log|, deadline) ==> AllExact(log + [e], deadline)
  {
    var longer := log + [e];
    assert longer[..|log|] == log;
    forall i | 0 <= i < |log| && AllExact(log, deadline)
      ensures Exact(longer, i, deadline)
    {
      assert Exact(log, i, deadline) && longer[..i] == log[..i];
    }
  }

  lemma CommandKeepsInv(s: State, c: Command, schedule: seq<Input>)
    requires Inv(s, schedule) && c.Valid()
    ensures Inv(Commanded(s, c), schedule) && Commanded(s, c).deadline == s.deadline
  {
    hide Sorting.Sorted, DeliveredInputs, AllExact, Limit, Spent;
    if c.Resume? {
      LogGrows(s.log, Resumed(c.limit), s.deadline);
      assert Exact(s.log + [Resumed(c.limit)], |s.log|, s.deadline);
    }
    hide Exact;
  }

  lemma {:induction false} CommandsKeepInv(s: State, commands: seq<Command>, schedule: seq<Input>)
    requires Inv(s, schedule) && forall i | 0 <= i < |commands| :: commands[i].Valid()
    ensures Inv(CommandedAll(s, commands), schedule) && CommandedAll(s, commands).deadline == s.deadline
    decreases |commands|
  {
    if commands != [] && !s.lifecycle.Ended? {
      CommandKeepsInv(s, commands[0], schedule);
      hide Inv, Commanded;
      CommandsKeepInv(Commanded(s, commands[0]), commands[1..], schedule);
    }
  }

  /** The delivery of the first scheduled input. */
  function DeliveredFirst(s: State): State
    requires s.scheduled != []
  {
    s.(scheduled := s.scheduled[1..], log := s.log + [Delivered(s.cpu.ticks, s.scheduled[0])])
  }

  /** Deliveries change nothing but the schedule and the log, and leave no input due. */
  lemma {:induction false} DeliveryOnlyDelivers(s: State)
    ensures var d := DeliveredDue(s);
      && d == s.(scheduled := d.scheduled, log := d.log)
      && (d.scheduled != [] ==> s.cpu.ticks < d.scheduled[0].atTick)
    decreases |s.scheduled|
  {
    if s.scheduled != [] && s.scheduled[0].atTick <= s.cpu.ticks { DeliveryOnlyDelivers(DeliveredFirst(s)); }
  }

  lemma HeadIsEarliest(scheduled: seq<Input>)
    requires Sorting.Sorted(scheduled, Earlier) && scheduled != []
    ensures forall i | 0 <= i < |scheduled| :: scheduled[0].atTick <= scheduled[i].atTick
    ensures Sorting.Sorted(scheduled[1..], Earlier)
  {
    Sorting.TailIsSorted(scheduled, Earlier);
    forall i | 0 <= i < |scheduled| ensures scheduled[0].atTick <= scheduled[i].atTick {
      if i != 0 { assert Earlier(scheduled[0], scheduled[i]); }
    }
  }

  lemma MoveHead(front: seq<Input>, rest: seq<Input>)
    requires rest != []
    ensures (front + [rest[0]]) + rest[1..] == front + rest
  {}

  lemma FirstDeliveryKeepsInv(s: State, schedule: seq<Input>)
    requires Inv(s, schedule) && s.scheduled != [] && s.scheduled[0].atTick <= s.cpu.ticks
    ensures Inv(DeliveredFirst(s), schedule)
  {
    hide Sorting.Sorted, DeliveredInputs, AllExact, Limit, Spent;
    var e, next := Delivered(s.cpu.ticks, s.scheduled[0]), DeliveredFirst(s);
    HeadIsEarliest(s.scheduled);
    LogGrows(s.log, e, s.deadline);
    assert Exact(next.log, |s.log|, s.deadline);
    MoveHead(DeliveredInputs(s.log), s.scheduled);
  }

  /** Inputs that are due are delivered exactly at their tick; the rest lie ahead. */
  lemma {:induction false} DeliveryKeepsInv(s: State, schedule: seq<Input>)
    requires Inv(s, schedule)
    ensures var d := DeliveredDue(s);
      && Inv(d, schedule) && d == s.(scheduled := d.scheduled, log := d.log)
      && (d.scheduled != [] ==> s.cpu.ticks < d.scheduled[0].atTick)
    decreases |s.scheduled|
  {
    if s.scheduled != [] && s.scheduled[0].atTick <= s.cpu.ticks {
      FirstDeliveryKeepsInv(s, schedule);
      hide Inv;
      DeliveryKeepsInv(DeliveredFirst(s), schedule);
    }
  }

  /** The state between a batch and its stop, when the limit may just have been used up. */
  ghost predicate MidBatch(s: State, schedule: seq<Input>) {
    && Inv(s.(lifecycle := Paused), schedule)
    && (s.remaining.Some? ==>
          && Limit(s.log).Some?
          && var n, spent := Limit(s.log).value, Spent(s.log);
             || (0 < s.remaining.value && spent + s.remaining.value == n)
             || (s.remaining.value == 0 && n <= spent <= n + 1))
  }

  lemma StopKeepsInv(s: State, stop: Backend.Stop, schedule: seq<Input>)
    requires MidBatch(s, schedule) && s.lifecycle.Running?
    ensures Inv(Settled(s, stop), schedule)
  {
    LogGrows(s.log, LimitPause, s.deadline);
    assert (s.log + [LimitPause])[..|s.log|] == s.log;
    hide Sorting.Sorted, DeliveredInputs, AllExact, Limit, Spent;
  }

  /** A batch ends no later than the next input and the deadline, and never starts the
      engine without a limit. */
  lemma BatchBounds(s: State, batch: nat, o: Backend.Oracle)
    requires 0 < batch && !Backend.Reached(s.cpu.ticks, s.deadline) && s.remaining != Some(0)
    requires s.scheduled != [] ==> s.cpu.ticks < s.scheduled[0].atTick
    ensures var budget := Budget(s, batch);
      var after := Backend.Ran(s.cpu, budget, Boundary(s), o).0.ticks;
      && 0 < budget <= batch && (s.remaining.Some? ==> budget <= s.remaining.value)
      && s.cpu.ticks <= after <= s.cpu.ticks + budget + 1
      && (s.deadline.Some? ==> after <= s.deadline.value)
      && (s.scheduled != [] ==> after <= s.scheduled[0].atTick)
  {
    var boundary, budget := Boundary(s), Budget(s, batch);
    hide Backend.Ran;
    Backend.RunCost(s.cpu, budget, boundary, o);
    if boundary.Some? { Backend.DeadlineIsNeverPassed(s.cpu, budget, boundary.value, o); }
  }

  lemma AccountedIsMidBatch(s: State, budget: nat, cpu: Backend.Cpu, schedule: seq<Input>)
    requires Inv(s, schedule) && s.lifecycle.Running?
    requires 0 < budget && (s.remaining.Some? ==> budget <= s.remaining.value)
    requires s.cpu.ticks <= cpu.ticks <= s.cpu.ticks + budget + 1
    requires s.deadline.Some? ==> cpu.ticks <= s.deadline.value
    requires s.scheduled != [] ==> cpu.ticks <= s.scheduled[0].atTick
    ensures MidBatch(Accounted(s, budget, cpu), schedule)
  {
    var e := Batch(s.cpu.ticks, budget, cpu.ticks);
    LogGrows(s.log, e, s.deadline);
    assert Exact(s.log + [e], |s.log|, s.deadline);
    hide Sorting.Sorted, DeliveredInputs, AllExact, Exact, Limit, Spent;
  }

  lemma BatchKeepsInv(s: State, batch: nat, o: Backend.Oracle, schedule: seq<Input>)
    requires Inv(s, schedule) && s.lifecycle.Running? && 0 < batch
    requires s.scheduled != [] ==> s.cpu.ticks < s.scheduled[0].atTick
    requires !Backend.Reached(s.cpu.ticks, s.deadline)
    ensures Inv(Executed(s, batch, o), schedule) && Executed(s, batch, o).deadline == s.deadline
  {
    hide Sorting.Sorted, DeliveredInputs, AllExact, Limit, Spent;
    BatchBounds(s, batch, o);
    hide Backend.Ran, Settled, Boundary, Budget, MidBatch;
    var (cpu, stop) := Backend.Ran(s.cpu, Budget(s, batch), Boundary(s), o);
    AccountedIsMidBatch(s, Budget(s, batch), cpu, schedule);
    StopKeepsInv(Accounted(s, Budget(s, batch), cpu), stop, schedule);
    SettledKeepsDeadline(Accounted(s, Budget(s, batch), cpu), stop);
  }

  lemma SettledKeepsDeadline(s: State, stop: Backend.Stop)
    ensures Settled(s, stop).deadline == s.deadline
  {}

  /** A pause at the deadline keeps the invariant and happens at the deadline tick. */
  lemma DeadlinePauseKeepsInv(s: State, schedule: seq<Input>)
    requires Inv(s, schedule) && Backend.Reached(s.cpu.ticks, s.deadline)
    ensures Inv(s.(lifecycle := Paused, log := s.log + [DeadlinePause(s.cpu.ticks)]), schedule)
  {
    LogGrows(s.log, DeadlinePause(s.cpu.ticks), s.deadline);
    assert Exact(s.log + [DeadlinePause(s.cpu.ticks)], |s.log|, s.deadline);
    hide Sorting.Sorted, DeliveredInputs, AllExact, Exact, Limit, Spent;
  }

  lemma RunningTurnKeepsInv(s: State, batch: nat, o: Backend.Oracle, schedule: seq<Input>)
    requires Inv(s, schedule) && s.lifecycle.Running? && 0 < batch
    ensures Inv(RunningTurn(s, batch, o), schedule) && RunningTurn(s, batch, o).deadline == s.deadline
  {
    hide Inv, DeliveredDue, Executed;
    DeliveryKeepsInv(s, schedule);
    var d := DeliveredDue(s);
    if Backend.Reached(d.cpu.ticks, d.deadline) {
      DeadlinePauseKeepsInv(d, schedule);
    } else {
      BatchKeepsInv(d, batch, o, schedule);
    }
  }

  lemma StepKeepsInv(s: State, batch: nat, t: Turn, schedule: seq<Input>)
    requires Inv(s, schedule) && 0 < batch && t.Valid()
    ensures Inv(Step(s, batch, t), schedule) && Step(s, batch, t).deadline == s.deadline
  {
    hide Inv, CommandedAll, Commanded, RunningTurn;
    CommandsKeepInv(s, t.commands, schedule);
    var c := CommandedAll(s, t.commands);
    match c.lifecycle
    case Running => RunningTurnKeepsInv(c, batch, t.oracle, schedule);
    case Paused => if t.waited.Some? { CommandKeepsInv(c, t.waited.value, schedule); }
    case Ended =>
  }

  lemma {:induction false} RunKeepsInv(s: State, batch: nat, turns: seq<Turn>, schedule: seq<Input>)
    requires Inv(s, schedule) && 0 < batch && forall i | 0 <= i < |turns| :: turns[i].Valid()
    ensures Inv(Run(s, batch, turns), schedule) && Run(s, batch, turns).deadline == s.deadline
    decreases |turns|
  {
    if turns != [] && !s.lifecycle.Ended? {
      StepKeepsInv(s, batch, turns[0], schedule);
      hide Inv, Step;
      RunKeepsInv(Step(s, batch, turns[0]), batch, turns[1..], schedule);
    }
  }

  lemma InitialInv(startPaused: bool, deadline: Option<nat>, inputs: seq<Input>)
    ensures Inv(Initial(startPaused, deadline, inputs), Schedule(inputs))
  {
    hide Sorting.Sort;
    Sorting.SortSorts(inputs, Earlier);
    assert DeliveredInputs([]) + Schedule(inputs) == Schedule(inputs);
  }

  /** Over every run of pauses, resumes, resets, breakpoints and engine outcomes: virtual
      time never passes the next undelivered input or the deadline; inputs are delivered in
      schedule order, each exactly at its tick; a deadline pause happens at the deadline
      tick; every batch has a nonzero budget; and a bounded resume of n instructions that
      ends by its limit has used n or n + 1 ticks. */
  lemma SchedulingIsExact(startPaused: bool, deadline: Option<nat>, inputs: seq<Input>, batch: nat, turns: seq<Turn>)
    requires 0 < batch && forall i | 0 <= i < |turns| :: turns[i].Valid()
    ensures var s := Run(Initial(startPaused, deadline, inputs), batch, turns);
      && (deadline.Some? ==> s.cpu.ticks <= deadline.value)
      && (forall i | 0 <= i < |s.scheduled| :: s.cpu.ticks <= s.scheduled[i].atTick)
      && DeliveredInputs(s.log) + s.scheduled == Schedule(inputs)
      && AllExact(s.log, deadline)
  {
    hide Run, Schedule, DeliveredInputs, AllExact, Sorting.Sorted;
    InitialInv(startPaused, deadline, inputs);
    RunKeepsInv(Initial(startPaused, deadline, inputs), batch, turns, Schedule(inputs));
    var s := Run(Initial(startPaused, deadline, inputs), batch, turns);
    if s.scheduled != [] { HeadIsEarliest(s.scheduled); }
  }
}
