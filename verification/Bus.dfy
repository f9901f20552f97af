/** The devices composed over one signal queue, and the machine that ticks them
    (crates/minemu-core/src/bus.rs and machine.rs). */
module Bus {
  import opened Platform
  import opened Memory
  import opened Registers
  import Interrupts
  import Timer
  import Serial
  import Block

  const RX_CAPACITY := 4096
  const TX_CAPACITY := 8192

  datatype Port = Uart0 | Uart1 {
    function Irq(): Interrupts.Source {
      match this case Uart0 => Interrupts.Source.Uart0 case Uart1 => Interrupts.Source.Uart1
    }
  }

  /** The value of every device, the queued signals and memory. */
  datatype Devices = Devices(
    controller: Interrupts.Controller, queue: seq<Interrupts.Signal>, timer: Timer.State,
    block: Block.State, uart0: Serial.State, uart1: Serial.State, memory: Mem)
  {
    predicate Valid() { controller.Valid() && block.Valid() && memory.Valid() }

    function Uart(port: Port): Serial.State {
      match port case Uart0 => uart0 case Uart1 => uart1
    }

    /** The true interrupt level of a source: its device's `irq_pending()`. */
    predicate Level(source: Interrupts.Source) {
      match source
      case SysTick => timer.IrqPending()
      case Uart0 => uart0.IrqPending()
      case Uart1 => uart1.IrqPending()
      case Block => block.IrqPending()
    }

    /** The bitmap that draining the queue now would give. */
    function Replayed(): set<Interrupts.Source> { Interrupts.Replay(controller.pending, queue) }

    function Sent(signal: Interrupts.Signal): Devices { this.(queue := queue + [signal]) }

    /** `process_signals`. */
    function Drained(): Devices {
      this.(controller := controller.(pending := Replayed()), queue := [])
    }
  }

  /** Everything that can happen to a device. Only `Guest` operations drain the queue. */
  datatype Op =
    | TimerOp(timer: Timer.Update)
    | BlockOp(block: Block.Update)
    | BlockAdvance
    | BlockFlush(unit: u32, writable: bool)
    | UartOp(port: Port, uart: Serial.Update)
    | ControllerOp(event: Interrupts.Event)
    | Drain

  function Step(d: Devices, op: Op, now: nat): (r: Devices)
    requires d.Valid()
    ensures r.Valid()
  {
    match op
    case TimerOp(u) =>
      var timer := Timer.Step(d.timer, u, now);
      d.(timer := timer).Sent(Interrupts.Signal(Interrupts.Source.SysTick, timer.IrqPending()))
    case BlockOp(u) =>
      var block := Block.Updated(d.block, u, now);
      if Block.Refused(u) then d
      else d.(block := block).Sent(Interrupts.Signal(Interrupts.Source.Block, block.IrqPending()))
    case BlockAdvance =>
      var (block, memory) := Block.Advanced(d.block, d.memory, now);
      if !Block.Due(d.block, now) then d
      else d.(block := block, memory := memory).Sent(Interrupts.Signal(Interrupts.Source.Block, block.IrqPending()))
    case BlockFlush(unit, writable) =>
      var block := Block.Flushed(d.block, unit, writable).0;
      if Block.FlushFails(d.block, unit, writable)
      then d.(block := block).Sent(Interrupts.Signal(Interrupts.Source.Block, block.IrqPending()))
      else d.(block := block)
    case UartOp(port, u) =>
      var uart := Serial.Step(d.Uart(port), u, RX_CAPACITY, TX_CAPACITY);
      var after := match port case Uart0 => d.(uart0 := uart) case Uart1 => d.(uart1 := uart);
      if Serial.Signals(u, RX_CAPACITY) then after.Sent(Interrupts.Signal(port.Irq(), uart.IrqPending())) else after
    case ControllerOp(event) =>
      if event.Claim? then d.Drained().(controller := d.Drained().controller.Claimed())
      else if event.Level? then d
      else d.(controller := Interrupts.Step(d.controller, event))
    case Drain => d.Drained()
  }

  /** An EOI for a source that is not claimed is an error and skips the drain. */
  predicate Fails(d: Devices, op: Op) {
    op.ControllerOp? && op.event.Eoi? && d.controller.Ended(op.event.id).Err?
  }

  /** `access`: a guest register access, then the drain. */
  function Accessed(d: Devices, op: Op, now: nat): Devices
    requires d.Valid()
  {
    if Fails(d, op) then d else Step(d, op, now).Drained()
  }

  /** `advance_to`: timer, then block device, then the drain. */
  function Advanced(d: Devices, now: nat): (r: Devices)
    requires d.Valid()
    ensures r.Valid()
  {
    Step(Step(d, TimerOp(Timer.AdvanceTo), now), BlockAdvance, now).Drained()
  }

  /** Register accesses that a guest can make. */
  predicate IsGuest(op: Op) {
    match op
    case TimerOp(u) => !u.AdvanceTo? && Timer.Accepted(u)
    case BlockOp(u) => !u.Attach? && !u.Detach? && !u.FlushFailed?
    case UartOp(_, u) => !u.Receive?
    case ControllerOp(event) => !event.Level?
    case Drain => true
    case _ => false
  }

  lemma RefusedChangesNothing(s: Block.State, u: Block.Update, now: nat)
    requires s.Valid()
    ensures Block.Refused(u) ==> Block.Updated(s, u, now) == s
  {}

  lemma DrainedTwice(d: Devices)
    ensures d.Drained().Drained() == d.Drained()
  {}

  class MmioBus {
    const queue: Interrupts.SignalQueue
    const interrupts: Interrupts.InterruptController
    const systick: Timer.SysTick
    const block: Block.BlockDevice
    const uart0: Serial.Uart
    const uart1: Serial.Uart
    const memory: PhysicalMemory

    ghost predicate Valid()
      reads this, interrupts, block
    {
      && memory.Valid() && interrupts.Valid() && block.Valid()
      && interrupts.receiver == queue && systick.sender == queue && block.sender == queue
      && uart0.sender == queue && uart1.sender == queue && uart0 != uart1
      && uart0.source == Interrupts.Source.Uart0 && uart1.source == Interrupts.Source.Uart1
      && uart0.rxCapacity == uart1.rxCapacity == RX_CAPACITY
      && uart0.txCapacity == uart1.txCapacity == TX_CAPACITY
    }

    ghost function Footprint(): set<object> {
      {queue, interrupts, systick, block, uart0, uart1, memory.ram}
    }

    ghost function Value(): (d: Devices)
      requires Valid()
      reads this, interrupts, block, Footprint()
      ensures d.Valid()
    {
      Devices(interrupts.State(), queue.signals, systick.Value(), block.Value(),
              uart0.Value(), uart1.Value(), memory.Contents())
    }

    constructor (physical: PhysicalMemory)
      requires physical.Valid()
      ensures Valid() && memory == physical && fresh(Footprint() - {physical.ram})
      ensures Value() == Devices(
        Interrupts.Controller({}, {}, [0, 64, 64, 128], None), [], Timer.RESET, Block.RESET,
        Serial.State([], [], false), Serial.State([], [], false), physical.Contents())
    {
      var signals := new Interrupts.SignalQueue();
      queue, memory := signals, physical;
      interrupts := new Interrupts.InterruptController(signals);
      systick := new Timer.SysTick(signals);
      block := new Block.BlockDevice(signals);
      uart0 := new Serial.Uart(RX_CAPACITY, TX_CAPACITY, Interrupts.Source.Uart0, signals);
      uart1 := new Serial.Uart(RX_CAPACITY, TX_CAPACITY, Interrupts.Source.Uart1, signals);
    }

    method UpdateUart(port: Port, u: Serial.Update)
      requires Valid()
      modifies Footprint()
      ensures Valid() && Value() == Step(old(Value()), UartOp(port, u), 0)
    {
      match port {
        case Uart0 => var _ := uart0.Update(u);
        case Uart1 => var _ := uart1.Update(u);
      }
    }

    method AccessController(event: Interrupts.Event) returns (ok: bool)
      requires Valid() && !event.Level?
      modifies Footprint()
      ensures Valid() && ok == !Fails(old(Value()), ControllerOp(event))
      ensures Value() == if ok then Step(old(Value()), ControllerOp(event), 0) else old(Value())
    {
      ok := true;
      match event {
        case SetEnabled(sources) => interrupts.SetEnabled(sources);
        case SetPriority(source, priority) => interrupts.SetPriority(source, priority);
        case Claim => var _ := interrupts.ClaimSource();
        case Eoi(id) => ok := interrupts.EndOfInterrupt(id);
      }
    }

    /** `access` on a decoded register: dispatch, then drain the queue. */
    method Access(op: Op, now: nat) returns (ok: bool)
      requires Valid() && IsGuest(op)
      modifies Footprint()
      ensures Valid() && ok == !Fails(old(Value()), op) && Value() == Accessed(old(Value()), op, now)
    {
      hide Value, Devices.Drained, Block.Refused, Block.Updated, Timer.Step, Serial.Step, Interrupts.Step;
      DrainedTwice(Value());
      ok := true;
      match op {
        case TimerOp(u) => UpdateTimer(u, now);
        case BlockOp(u) => UpdateBlock(u, now);
        case UartOp(port, u) => UpdateUart(port, u);
        case ControllerOp(event) => ok := AccessController(event);
        case Drain =>
      }
      if ok { DrainSignals(); }
    }

    method UpdateTimer(u: Timer.Update, now: nat)
      requires Valid()
      modifies Footprint()
      ensures Valid() && Value() == Step(old(Value()), TimerOp(u), now)
    {
      hide Timer.Step;
      systick.Update(u, now);
    }

    method UpdateBlock(u: Block.Update, now: nat)
      requires Valid()
      modifies Footprint()
      ensures Valid() && Value() == Step(old(Value()), BlockOp(u), now)
    {
      RefusedChangesNothing(block.Value(), u, now);
      hide Block.Updated, Block.Refused;
      var _ := block.Update(u, now);
    }

    method AdvanceBlock(now: nat)
      requires Valid()
      modifies Footprint()
      ensures Valid() && Value() == Step(old(Value()), BlockAdvance, now)
    {
      hide Block.Execute;
      block.AdvanceTo(now, memory);
    }

    method DrainSignals()
      requires Valid()
      modifies Footprint()
      ensures Valid() && Value() == old(Value()).Drained()
    {
      hide Interrupts.Replay;
      interrupts.ProcessSignals();
    }

    /** `advance_to`. */
    method AdvanceTo(now: nat)
      requires Valid()
      modifies Footprint()
      ensures Valid() && Value() == Advanced(old(Value()), now)
    {
      hide Step, Value, Devices.Drained;
      UpdateTimer(Timer.AdvanceTo, now);
      AdvanceBlock(now);
      DrainSignals();
    }

    /** `receive_uart`: a byte from the host, then the drain. */
    method ReceiveUart(port: Port, byte: u8)
      requires Valid()
      modifies Footprint()
      ensures Valid() && Value() == Step(old(Value()), UartOp(port, Serial.Receive(byte)), 0).Drained()
    {
      hide Value, Step, Devices.Drained;
      UpdateUart(port, Serial.Receive(byte));
      DrainSignals();
    }
  }

  /** The machine: devices, memory and virtual time. */
  class Machine {
    const bus: MmioBus
    var ticks: nat

    ghost predicate Valid()
      reads this, bus, bus.interrupts, bus.block
    {
      bus.Valid()
    }

    constructor (physical: PhysicalMemory)
      requires physical.Valid()
      ensures Valid() && ticks == 0 && bus.memory == physical
    {
      bus := new MmioBus(physical);
      ticks := 0;
    }

    /** `advance_ticks`: one device update per tick, which comes to the same as one
        update at the last tick. */
    method AdvanceTicks(count: nat)
      requires Valid()
      modifies this`ticks, bus.Footprint()
      ensures Valid() && ticks == old(ticks) + count
      ensures bus.Value() == if count == 0 then old(bus.Value()) else Advanced(old(bus.Value()), ticks)
    {
      hide Advanced, MmioBus.Value;
      for i := 0 to count
        invariant Valid() && ticks == old(ticks) + i
        invariant bus.Value() == if i == 0 then old(bus.Value()) else Advanced(old(bus.Value()), ticks)
      {
        if i != 0 { AdvancedTwice(old(bus.Value()), ticks, ticks + 1); }
        ticks := ticks + 1;
        bus.AdvanceTo(ticks);
      }
    }
  }

  // ---- Ticking equals jumping ----

  lemma ReplaySent(d: Devices, signal: Interrupts.Signal)
    ensures d.Sent(signal).Replayed() == Interrupts.Apply(d.Replayed(), signal)
  {
    Interrupts.ReplaySplit(d.controller.pending, d.queue, [signal]);
    assert Interrupts.Replay(d.Replayed(), [signal]) == Interrupts.Apply(d.Replayed(), signal);
  }

  /** The bitmap after an advance: the timer's level, then the block level if it completed. */
  lemma AdvancedPending(d: Devices, now: nat)
    requires d.Valid()
    ensures var after := Advanced(d, now);
      var timed := Interrupts.Apply(d.Replayed(), Interrupts.Signal(Interrupts.Source.SysTick, after.timer.IrqPending()));
      && after.queue == []
      && after.controller == d.controller.(pending :=
           if Block.Due(d.block, now)
           then Interrupts.Apply(timed, Interrupts.Signal(Interrupts.Source.Block, after.block.IrqPending()))
           else timed)
  {
    hide Timer.Step, Block.Execute;
    var timed := Step(d, TimerOp(Timer.AdvanceTo), now);
    ReplaySent(d, Interrupts.Signal(Interrupts.Source.SysTick, timed.timer.IrqPending()));
    if Block.Due(d.block, now) {
      var block := Block.Advanced(d.block, d.memory, now).0;
      ReplaySent(timed, Interrupts.Signal(Interrupts.Source.Block, block.IrqPending()));
    }
  }

  /** Passing through an earlier tick makes no difference at a later one: timer, block
      device, media, memory, bitmap and claim all agree. */
  lemma AdvancedTwice(d: Devices, first: nat, second: nat)
    requires d.Valid() && first <= second
    ensures Advanced(Advanced(d, first), second) == Advanced(d, second)
  {
    Timer.AdvanceTwice(d.timer, first, second);
    AdvancedPending(d, first);
    AdvancedPending(d, second);
    AdvancedPending(Advanced(d, first), second);
    assert Advanced(d, first).Replayed() == Advanced(d, first).controller.pending;
    hide Timer.Step, Block.Execute, Interrupts.Replay;
  }

  // ---- Levels ----

  /** The queue replays to the true level of every device. */
  ghost predicate Coherent(d: Devices) {
    forall source: Interrupts.Source :: source in d.Replayed() <==> d.Level(source)
  }

  /** A device that changes and signals its level leaves the queue true. */
  lemma SignalKeepsCoherence(d: Devices, changed: Devices, source: Interrupts.Source)
    requires Coherent(d) && changed.controller == d.controller && changed.queue == d.queue
    requires forall other: Interrupts.Source | other != source :: changed.Level(other) == d.Level(other)
    ensures Coherent(changed.Sent(Interrupts.Signal(source, changed.Level(source))))
  {
    var signal := Interrupts.Signal(source, changed.Level(source));
    var after := changed.Sent(signal);
    ReplaySent(changed, signal);
    assert changed.Replayed() == d.Replayed();
    hide Interrupts.Replay, Devices.Replayed;
    forall s: Interrupts.Source ensures s in after.Replayed() <==> after.Level(s) {
      assert after.Level(s) == changed.Level(s);
    }
  }

  /** Without a signal, the levels must not have changed. */
  lemma SilenceKeepsCoherence(d: Devices, changed: Devices)
    requires Coherent(d) && changed.Replayed() == d.Replayed()
    requires forall source: Interrupts.Source :: changed.Level(source) == d.Level(source)
    ensures Coherent(changed)
  {
    hide Devices.Replayed, Devices.Level;
  }

  lemma BlockStepIsCoherent(d: Devices, op: Op, now: nat)
    requires d.Valid() && Coherent(d) && (op.BlockOp? || op.BlockAdvance? || op.BlockFlush?)
    ensures Coherent(Step(d, op, now))
  {
    hide Coherent, Block.Execute, Block.Updated, Interrupts.Replay;
    match op
    case BlockOp(u) =>
      if !Block.Refused(u) {
        SignalKeepsCoherence(d, d.(block := Block.Updated(d.block, u, now)), Interrupts.Source.Block);
      }
    case BlockAdvance =>
      if Block.Due(d.block, now) {
        var (block, memory) := Block.Advanced(d.block, d.memory, now);
        SignalKeepsCoherence(d, d.(block := block, memory := memory), Interrupts.Source.Block);
      }
    case BlockFlush(unit, writable) =>
      var flushed := d.(block := Block.Flushed(d.block, unit, writable).0);
      if Block.FlushFails(d.block, unit, writable) {
        SignalKeepsCoherence(d, flushed, Interrupts.Source.Block);
      } else {
        SilenceKeepsCoherence(d, flushed);
      }
  }

  lemma UartStepIsCoherent(d: Devices, op: Op, now: nat)
    requires d.Valid() && Coherent(d) && op.UartOp?
    ensures Coherent(Step(d, op, now))
  {
    var uart := Serial.Step(d.Uart(op.port), op.uart, RX_CAPACITY, TX_CAPACITY);
    var changed := match op.port case Uart0 => d.(uart0 := uart) case Uart1 => d.(uart1 := uart);
    assert !Serial.Signals(op.uart, RX_CAPACITY) ==> uart.IrqPending() == d.Uart(op.port).IrqPending();
    hide Coherent, Serial.Step, Interrupts.Replay;
    if Serial.Signals(op.uart, RX_CAPACITY) {
      SignalKeepsCoherence(d, changed, op.port.Irq());
    } else {
      SilenceKeepsCoherence(d, changed);
    }
  }

  /** Every operation, including UART bytes delivered outside the bus, failed flushes and
      media changes, keeps the queue true to the devices. */
  lemma StepIsCoherent(d: Devices, op: Op, now: nat)
    requires d.Valid() && Coherent(d)
    ensures Coherent(Step(d, op, now))
  {
    match op
    case TimerOp(u) =>
      hide Coherent, Timer.Step, Interrupts.Replay;
      SignalKeepsCoherence(d, d.(timer := Timer.Step(d.timer, u, now)), Interrupts.Source.SysTick);
    case BlockOp(_) => BlockStepIsCoherent(d, op, now);
    case BlockAdvance => BlockStepIsCoherent(d, op, now);
    case BlockFlush(_, _) => BlockStepIsCoherent(d, op, now);
    case UartOp(_, _) => UartStepIsCoherent(d, op, now);
    case ControllerOp(_) => ControllerStepIsCoherent(d, op, now);
    case Drain => ControllerStepIsCoherent(d, op, now);
  }

  lemma ControllerStepIsCoherent(d: Devices, op: Op, now: nat)
    requires d.Valid() && Coherent(d) && (op.ControllerOp? || op.Drain?)
    ensures Coherent(Step(d, op, now))
  {
    var after := Step(d, op, now);
    assert after.Replayed() == d.Replayed();
    hide Coherent, Interrupts.Replay, Interrupts.Step, Devices.Replayed;
    SilenceKeepsCoherence(d, after);
  }

  /** One operation at a tick. */
  datatype Event = Event(op: Op, now: nat)

  ghost function Run(d: Devices, events: seq<Event>): (r: Devices)
    requires d.Valid()
    ensures r.Valid()
    decreases |events|
  {
    if events == [] then d else Run(Step(d, events[0].op, events[0].now), events[1..])
  }

  /** From reset, after any operations at all, draining the queue makes the PENDING bitmap
      equal to the true level of each of the four sources. */
  lemma {:induction false} PendingEqualsLevels(d: Devices, events: seq<Event>)
    requires d.Valid() && Coherent(d)
    ensures Coherent(Run(d, events))
    ensures forall source: Interrupts.Source ::
      source in Run(d, events).Drained().controller.pending <==> Run(d, events).Level(source)
    decreases |events|
  {
    if events != [] {
      StepIsCoherent(d, events[0].op, events[0].now);
      PendingEqualsLevels(Step(d, events[0].op, events[0].now), events[1..]);
    }
  }

  /** The level of each source, in terms of its device. */
  lemma LevelsOfDevices(d: Devices)
    ensures d.Level(Interrupts.Source.SysTick) <==> d.timer.pending && d.timer.irqEnabled
    ensures d.Level(Interrupts.Source.Uart0) <==> d.uart0.irqEnabled && 0 < |d.uart0.rx|
    ensures d.Level(Interrupts.Source.Uart1) <==> d.uart1.irqEnabled && 0 < |d.uart1.rx|
    ensures d.Level(Interrupts.Source.Block) <==> d.block.irqEnabled && d.block.complete
  {}

  /** A guest access fails exactly by an EOI for a source that is not claimed, and then changes
      nothing. After any other access the queue is empty and the bitmap is the true levels. */
  lemma AccessSettlesLevels(d: Devices, op: Op, now: nat)
    requires d.Valid() && Coherent(d) && IsGuest(op)
    ensures var after := Accessed(d, op, now);
      if op.ControllerOp? && op.event.Eoi? && !(exists s: Interrupts.Source :: d.controller.claim == Some(s) && s.Id() == op.event.id)
      then Fails(d, op) && after == d
      else
        && !Fails(d, op) && after.queue == []
        && forall source: Interrupts.Source :: source in after.controller.pending <==> after.Level(source)
  {
    if !Fails(d, op) {
      StepIsCoherent(d, op, now);
      DrainedIsTrue(Step(d, op, now));
    }
    hide Step, Coherent;
  }

  lemma DrainedIsTrue(d: Devices)
    requires d.Valid() && Coherent(d)
    ensures forall source: Interrupts.Source :: source in d.Drained().controller.pending <==> d.Drained().Level(source)
  {}

  function WrittenTimerIrq(e: Event): Option<bool> {
    if e.op.TimerOp? && e.op.timer.Control? then Some(e.op.timer.control / 4 % 2 == 1) else None
  }

  ghost predicate NoTimerAck(events: seq<Event>) {
    forall i | 0 <= i < |events| :: events[i].op != TimerOp(Timer.Ack)
  }

  lemma OneEventKeepsTimer(d: Devices, e: Event)
    requires d.Valid() && d.timer.pending && e.op != TimerOp(Timer.Ack)
    ensures var timer := Step(d, e.op, e.now).timer;
      && timer.pending
      && timer.irqEnabled == if WrittenTimerIrq(e).Some? then WrittenTimerIrq(e).value else d.timer.irqEnabled
  {
    hide Block.Execute, Block.Updated, Serial.Step, Interrupts.Replay;
  }

  /** A pending timer stays pending through any run without an ACK, and bit 2 of the last CONTROL
      says whether it interrupts. */
  lemma {:induction false} TimerStaysPending(d: Devices, events: seq<Event>)
    requires d.Valid() && d.timer.pending && NoTimerAck(events)
    ensures Run(d, events).timer.pending
    ensures Run(d, events).timer.irqEnabled == Latest(events, WrittenTimerIrq, d.timer.irqEnabled)
    decreases |events|
  {
    if events != [] {
      OneEventKeepsTimer(d, events[0]);
      hide Step;
      TimerStaysPending(Step(d, events[0].op, events[0].now), events[1..]);
      LatestFromFront(events, WrittenTimerIrq, d.timer.irqEnabled);
      hide Latest;
    }
  }

  lemma AdvancedIsCoherent(d: Devices, now: nat)
    requires d.Valid() && Coherent(d)
    ensures Coherent(Advanced(d, now))
  {
    var timed := Step(d, TimerOp(Timer.AdvanceTo), now);
    StepIsCoherent(d, TimerOp(Timer.AdvanceTo), now);
    StepIsCoherent(timed, BlockAdvance, now);
    StepIsCoherent(Step(timed, BlockAdvance, now), Drain, now);
    hide Timer.Step, Block.Execute, Coherent;
  }

  lemma AdvancedTimer(d: Devices, now: nat)
    requires d.Valid()
    ensures Advanced(d, now).timer == Timer.Step(d.timer, Timer.AdvanceTo, now)
  {
    hide Timer.Step, Block.Execute;
  }

  /** Once the machine has reached the timer's deadline, the timer's source is in the drained
      bitmap after any run without an ACK, exactly if the last CONTROL set bit 2. */
  lemma ExpiryInterrupts(d: Devices, now: nat, events: seq<Event>)
    requires d.Valid() && Coherent(d) && d.timer.deadline.Some? && d.timer.deadline.value <= now && NoTimerAck(events)
    ensures Interrupts.Source.SysTick in Run(Advanced(d, now), events).Drained().controller.pending
       <==> Latest(events, WrittenTimerIrq, d.timer.irqEnabled)
  {
    AdvancedIsCoherent(d, now);
    AdvancedTimer(d, now);
    hide Advanced, Coherent, Latest;
    TimerStaysPending(Advanced(d, now), events);
    PendingEqualsLevels(Advanced(d, now), events);
    LevelsOfDevices(Run(Advanced(d, now), events));
    hide Run;
  }

  lemma ResetIsCoherent(controller: Interrupts.Controller, m: Mem)
    requires controller.pending == {}
    ensures Coherent(Devices(controller, [], Timer.RESET, Block.RESET,
                             Serial.State([], [], false), Serial.State([], [], false), m))
  {}

  // ---- Machine runs ----

  /** Between ticks: levels replay truly, the timer is in phase and no request is overdue. */
  ghost predicate Settled(d: Devices, ticks: nat) {
    && d.Valid() && Coherent(d) && d.timer.InPhase(ticks)
    && (d.block.active.Some? ==> ticks < d.block.active.value.deadline <= ticks + Block.COMPLETION_DELAY)
  }

  /** What the machine does: guest accesses and host inputs at the current tick, or ticks. */
  datatype Action = Guest(op: Op) | Host(op: Op) | Stores(memory: Mem) | Ticks(count: nat)

  predicate Allowed(a: Action) {
    match a
    case Guest(op) => IsGuest(op)
    case Host(op) => (op.UartOp? && op.uart.Receive?) || op.BlockFlush? || op.BlockOp?
    case Stores(memory) => memory.Valid()
    case Ticks(_) => true
  }

  /** `advance_ticks`, one tick at a time. */
  function Ticked(d: Devices, ticks: nat, count: nat): (r: Devices)
    requires d.Valid()
    ensures r.Valid()
    decreases count
  {
    if count == 0 then d else Ticked(Advanced(d, ticks + 1), ticks + 1, count - 1)
  }

  /** Running tick by tick is one jump to the last tick. */
  lemma {:induction false} TickingIsJumping(d: Devices, ticks: nat, count: nat)
    requires d.Valid() && 0 < count
    ensures Ticked(d, ticks, count) == Advanced(d, ticks + count)
    decreases count
  {
    hide Advanced;
    if count > 1 {
      TickingIsJumping(Advanced(d, ticks + 1), ticks + 1, count - 1);
      AdvancedTwice(d, ticks + 1, ticks + count);
    }
  }

  /** Where nothing is due, a jump to the current tick only drains the queue: so the
      equality extends to zero ticks in every state between ticks. */
  lemma JumpInPlace(d: Devices, ticks: nat)
    requires Settled(d, ticks)
    ensures Advanced(d, ticks) == Ticked(d, ticks, 0).Drained()
  {
    AdvancedPending(d, ticks);
    assert d.Drained().controller.pending == d.Replayed();
    hide Interrupts.Replay;
  }

  lemma AdvancedIsSettled(d: Devices, ticks: nat, now: nat)
    requires Settled(d, ticks) && ticks <= now
    ensures Settled(Advanced(d, now), now)
  {
    Timer.AdvanceKeepsPhase(d.timer, ticks, now);
    var timed := Step(d, TimerOp(Timer.AdvanceTo), now);
    StepIsCoherent(d, TimerOp(Timer.AdvanceTo), now);
    StepIsCoherent(timed, BlockAdvance, now);
    StepIsCoherent(Step(timed, BlockAdvance, now), Drain, now);
    hide Timer.Step, Block.Execute, Coherent;
  }

  function Acted(d: Devices, ticks: nat, a: Action): (r: (Devices, nat))
    requires d.Valid() && Allowed(a)
    ensures r.0.Valid()
  {
    match a
    case Guest(op) => (Accessed(d, op, ticks), ticks)
    case Host(op) => (Step(d, op, ticks), ticks)
    case Stores(memory) => (d.(memory := memory), ticks)
    case Ticks(count) => (Ticked(d, ticks, count), ticks + count)
  }

  /** Every action of the machine leads from a settled state to a settled state: in every
      reachable state a timer deadline exists exactly when the timer is enabled with a
      nonzero period, it lies in (ticks, ticks + period], and no request is overdue. */
  lemma ActedIsSettled(d: Devices, ticks: nat, a: Action)
    requires Settled(d, ticks) && Allowed(a)
    ensures Settled(Acted(d, ticks, a).0, Acted(d, ticks, a).1)
  {
    match a
    case Guest(op) =>
      hide Step, Settled, IsGuest;
      OpIsSettled(d, ticks, op);
      if !Fails(d, op) { DrainIsSettled(Step(d, op, ticks), ticks); }
    case Host(op) => OpIsSettled(d, ticks, op);
    case Stores(memory) => assert d.(memory := memory).Replayed() == d.Replayed();
    case Ticks(count) =>
      hide Settled, Ticked, Advanced;
      TicksAreSettled(d, ticks, count);
  }

  lemma DrainIsSettled(d: Devices, ticks: nat)
    requires Settled(d, ticks)
    ensures Settled(d.Drained(), ticks)
  {
    OpIsSettled(d, ticks, Drain);
    hide Settled;
    assert Step(d, Drain, ticks) == d.Drained();
  }

  lemma TicksAreSettled(d: Devices, ticks: nat, count: nat)
    requires Settled(d, ticks)
    ensures Settled(Ticked(d, ticks, count), ticks + count)
  {
    assert d.Valid();
    hide *;
    if count == 0 {
      NoTicks(d, ticks);
    } else {
      TickingIsJumping(d, ticks, count);
      AdvancedIsSettled(d, ticks, ticks + count);
    }
  }

  lemma NoTicks(d: Devices, ticks: nat)
    requires d.Valid()
    ensures Ticked(d, ticks, 0) == d
  {}

  lemma OpIsSettled(d: Devices, ticks: nat, op: Op)
    requires Settled(d, ticks) && (Allowed(Guest(op)) || Allowed(Host(op)))
    ensures Settled(Step(d, op, ticks), ticks)
  {
    StepIsCoherent(d, op, ticks);
    if op.TimerOp? { Timer.WriteKeepsPhase(d.timer, op.timer, ticks); }
    hide Timer.Step, Timer.State.InPhase, Coherent, Serial.Step, Interrupts.Step;
  }

  ghost function Played(d: Devices, ticks: nat, actions: seq<Action>): (r: (Devices, nat))
    requires d.Valid() && forall i | 0 <= i < |actions| :: Allowed(actions[i])
    ensures r.0.Valid()
    decreases |actions|
  {
    if actions == [] then (d, ticks)
    else
      var (next, now) := Acted(d, ticks, actions[0]);
      Played(next, now, actions[1..])
  }

  lemma {:induction false} PlayedIsSettled(d: Devices, ticks: nat, actions: seq<Action>)
    requires Settled(d, ticks) && forall i | 0 <= i < |actions| :: Allowed(actions[i])
    ensures Settled(Played(d, ticks, actions).0, Played(d, ticks, actions).1)
    decreases |actions|
  {
    if actions != [] {
      ActedIsSettled(d, ticks, actions[0]);
      var (next, now) := Acted(d, ticks, actions[0]);
      hide Settled, Acted;
      PlayedIsSettled(next, now, actions[1..]);
    }
  }
}
