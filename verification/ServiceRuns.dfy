/** The service and its machine together: what each turn of the service loop does to the
    machine, and that the two clocks never part (crates/minemu-runtime/src/service.rs). */
module ServiceRuns {
  import opened Platform
  import opened Bus
  import opened MachineRuns
  import opened Emulation
  import opened Lifetime
  import Backend
  import Scheduler
  import Serial

  /** What host and guest contribute to one turn: the answers to its commands, bytes from the
      inbox, the guest's work during the batch, and the outcome of a flush. */
  datatype HostTurn = HostTurn(
    commands: seq<Answers>, waited: Answers, inbox: seq<(Port, u8)>, guest: seq<Action>, writable: Paths)

  function PortOf(port: nat): Port { if port == 0 then Port.Uart0 else Port.Uart1 }

  /** `deliver_uart`, byte by byte. */
  function Received(port: Port, bytes: seq<u8>): seq<Deed> {
    seq(|bytes|, i requires 0 <= i < |bytes| => Acts(Host(UartOp(port, Serial.Receive(bytes[i])))))
  }

  /** `drain_uart`. */
  function InboxDeeds(inbox: seq<(Port, u8)>): seq<Deed> {
    seq(|inbox|, i requires 0 <= i < |inbox| => Acts(Host(UartOp(inbox[i].0, Serial.Receive(inbox[i].1)))))
  }

  function GuestDeeds(guest: seq<Action>): seq<Deed> {
    seq(|guest|, i requires 0 <= i < |guest| => Acts(guest[i]))
  }

  // ---- What a turn does to the machine ----

  /** `process_command`: a pause and a shutdown flush, a reset flushes and rebuilds. */
  function CommandDeeds(s: Scheduler.State, c: Scheduler.Command, answers: Answers): seq<Deed> {
    match c
    case Pause => if s.lifecycle.Running? then [Flushes(answers.writable)] else []
    case Reset(_) => if s.lifecycle.Ended? then [] else [Resets(answers)]
    case Shutdown => [Flushes(answers.writable)]
    case _ => []
  }

  function CommandsDeeds(s: Scheduler.State, commands: seq<Scheduler.Command>, answers: seq<Answers>): seq<Deed>
    requires |commands| == |answers|
    decreases |commands|
  {
    if commands == [] || s.lifecycle.Ended? then []
    else
      CommandDeeds(s, commands[0], answers[0])
      + CommandsDeeds(Scheduler.Commanded(s, commands[0]), commands[1..], answers[1..])
  }

  /** The receive actions of the inputs that are due. */
  function DeliveryDeeds(s: Scheduler.State): seq<Deed>
    decreases |s.scheduled|
  {
    if s.scheduled == [] || s.scheduled[0].atTick > s.cpu.ticks then []
    else Received(PortOf(s.scheduled[0].port), s.scheduled[0].bytes) + DeliveryDeeds(Scheduler.DeliveredFirst(s))
  }

  /** A stop that ends or pauses the service flushes. */
  function StopDeeds(ready: Scheduler.State, batch: nat, o: Backend.Oracle, x: HostTurn): seq<Deed> {
    if Scheduler.Executed(ready, batch, o).lifecycle.Running? then [] else [Flushes(x.writable)]
  }

  /** A pause at the deadline, or the inbox and the batch with the flush of its stop. */
  function BatchDeeds(ready: Scheduler.State, batch: nat, o: Backend.Oracle, x: HostTurn): seq<Deed> {
    if Backend.Reached(ready.cpu.ticks, ready.deadline) then [Flushes(x.writable)]
    else
      (InboxDeeds(x.inbox) + GuestDeeds(x.guest)) + StopDeeds(ready, batch, o, x)
  }

  function BodyDeeds(c: Scheduler.State, batch: nat, t: Scheduler.Turn, x: HostTurn): seq<Deed> {
    match c.lifecycle
    case Ended => []
    case Running => DeliveryDeeds(c) + BatchDeeds(Scheduler.DeliveredDue(c), batch, t.oracle, x)
    case Paused => if t.waited.Some? then CommandDeeds(c, t.waited.value, x.waited) else []
  }

  function TurnDeeds(s: Scheduler.State, batch: nat, t: Scheduler.Turn, x: HostTurn): seq<Deed>
    requires |t.commands| == |x.commands|
  {
    CommandsDeeds(s, t.commands, x.commands) + BodyDeeds(Scheduler.CommandedAll(s, t.commands), batch, t, x)
  }

  // ---- Host and guest keep to the scheduler's view ----

  /** The reset outcome that the emulator reports. */
  function OutcomeOf(l: Life, c: Config, answers: Answers): Scheduler.ResetOutcome
    requires l.hosted.devices.Valid()
  {
    if !Replaces(l.hosted, c.paths, c.writes, answers) then Scheduler.Untouched
    else if answers.registersOk then Scheduler.Restarted else Scheduler.Replaced
  }

  ghost predicate CommandFits(s: Scheduler.State, l: Life, c: Config, command: Scheduler.Command, answers: Answers)
    requires l.hosted.devices.Valid()
  {
    command.Reset? && !s.lifecycle.Ended? ==> command.outcome == OutcomeOf(l, c, answers)
  }

  ghost predicate CommandsFit(s: Scheduler.State, l: Life, c: Config, commands: seq<Scheduler.Command>, answers: seq<Answers>)
    requires l.hosted.devices.Valid() && |commands| == |answers|
    decreases |commands|
  {
    commands == [] || s.lifecycle.Ended? ||
    (CommandPermitted(s, commands[0], answers[0]);
     CommandFits(s, l, c, commands[0], answers[0])
     && CommandsFit(Scheduler.Commanded(s, commands[0]), Lived(l, c, CommandDeeds(s, commands[0], answers[0])), c, commands[1..], answers[1..]))
  }

  /** During a batch the guest accesses registers, stores to memory and lets ticks pass. */
  predicate IsGuestWork(a: Action) { !a.Host? && Allowed(a) }

  /** The guest's ticks are those that the backend charges. */
  ghost predicate GuestFits(ready: Scheduler.State, batch: nat, o: Backend.Oracle, x: HostTurn) {
    !Backend.Reached(ready.cpu.ticks, ready.deadline) ==>
      && (forall i | 0 <= i < |x.guest| :: IsGuestWork(x.guest[i]))
      && EndTick(ready.cpu.ticks, x.guest)
         == Backend.Ran(ready.cpu, Scheduler.Budget(ready, batch), Scheduler.Boundary(ready), o).0.ticks
  }

  ghost predicate BodyFits(s: Scheduler.State, l: Life, c: Config, batch: nat, t: Scheduler.Turn, x: HostTurn)
    requires l.hosted.devices.Valid()
  {
    match s.lifecycle
    case Ended => true
    case Running => GuestFits(Scheduler.DeliveredDue(s), batch, t.oracle, x)
    case Paused => t.waited.Some? ==> CommandFits(s, l, c, t.waited.value, x.waited)
  }

  ghost predicate TurnFits(s: Scheduler.State, l: Life, c: Config, batch: nat, t: Scheduler.Turn, x: HostTurn)
    requires l.hosted.devices.Valid()
  {
    && |t.commands| == |x.commands| && CommandsFit(s, l, c, t.commands, x.commands)
    && (CommandsPermitted(s, t.commands, x.commands);
        BodyFits(Scheduler.CommandedAll(s, t.commands), Lived(l, c, CommandsDeeds(s, t.commands, x.commands)), c, batch, t, x))
  }

  // ---- Every deed is permitted ----

  lemma CommandPermitted(s: Scheduler.State, command: Scheduler.Command, answers: Answers)
    ensures AllPermitted(CommandDeeds(s, command, answers))
  {}

  lemma JoinPermitted(a: seq<Deed>, b: seq<Deed>)
    requires AllPermitted(a) && AllPermitted(b)
    ensures AllPermitted(a + b)
  {
    hide Permitted;
  }

  lemma {:induction false} CommandsPermitted(s: Scheduler.State, commands: seq<Scheduler.Command>, answers: seq<Answers>)
    requires |commands| == |answers|
    ensures AllPermitted(CommandsDeeds(s, commands, answers))
    decreases |commands|
  {
    if commands != [] && !s.lifecycle.Ended? {
      hide AllPermitted, CommandDeeds, Scheduler.Commanded;
      CommandPermitted(s, commands[0], answers[0]);
      CommandsPermitted(Scheduler.Commanded(s, commands[0]), commands[1..], answers[1..]);
      JoinPermitted(CommandDeeds(s, commands[0], answers[0]),
                    CommandsDeeds(Scheduler.Commanded(s, commands[0]), commands[1..], answers[1..]));
    } else {
      assert CommandsDeeds(s, commands, answers) == [];
    }
  }

  /** Deeds that take no time: all but ticks and resets. */
  predicate Timeless(deed: Deed) { deed.Flushes? || (deed.Acts? && !deed.action.Ticks?) }

  ghost predicate AllTimeless(deeds: seq<Deed>) {
    forall i | 0 <= i < |deeds| :: Permitted(deeds[i]) && Timeless(deeds[i])
  }

  lemma JoinTimeless(a: seq<Deed>, b: seq<Deed>)
    requires AllTimeless(a) && AllTimeless(b)
    ensures AllTimeless(a + b) && AllPermitted(a)
  {
    hide Permitted, Timeless;
  }

  lemma {:induction false} DeliveryIsTimeless(s: Scheduler.State)
    ensures AllTimeless(DeliveryDeeds(s)) && AllPermitted(DeliveryDeeds(s))
    decreases |s.scheduled|
  {
    if s.scheduled != [] && s.scheduled[0].atTick <= s.cpu.ticks {
      var first := Received(PortOf(s.scheduled[0].port), s.scheduled[0].bytes);
      assert AllTimeless(first);
      DeliveryIsTimeless(Scheduler.DeliveredFirst(s));
      hide AllTimeless, Received;
      JoinTimeless(first, DeliveryDeeds(Scheduler.DeliveredFirst(s)));
      JoinTimeless(DeliveryDeeds(s), []);
    }
  }

  // ---- The clocks agree ----

  lemma {:induction false} LivedJoins(l: Life, c: Config, a: seq<Deed>, b: seq<Deed>)
    requires l.hosted.devices.Valid() && AllPermitted(a) && AllPermitted(b)
    ensures AllPermitted(a + b) && Lived(l, c, a + b) == Lived(Lived(l, c, a), c, b)
    decreases |a|
  {
    JoinPermitted(a, b);
    if a == [] {
      assert a + b == b;
      hide Done, AllPermitted;
    } else {
      assert Permitted(a[0]) && AllPermitted(a[1..]);
      assert (a + b)[0] == a[0] && (a + b)[1..] == a[1..] + b;
      hide Done, AllPermitted, Permitted;
      LivedJoins(Done(l, c, a[0]), c, a[1..], b);
    }
  }

  lemma {:induction false} TimelessKeepsTick(l: Life, c: Config, deeds: seq<Deed>)
    requires l.hosted.devices.Valid() && AllTimeless(deeds)
    ensures AllPermitted(deeds) && Lived(l, c, deeds).ticks == l.ticks
    decreases |deeds|
  {
    if deeds != [] {
      assert Permitted(deeds[0]) && Timeless(deeds[0]) && AllTimeless(deeds[1..]);
      TimelessKeepsOneTick(l, c, deeds[0]);
      hide Done, AllTimeless, Permitted;
      TimelessKeepsTick(Done(l, c, deeds[0]), c, deeds[1..]);
    }
  }

  lemma TimelessKeepsOneTick(l: Life, c: Config, deed: Deed)
    requires l.hosted.devices.Valid() && Permitted(deed) && Timeless(deed)
    ensures Done(l, c, deed).ticks == l.ticks
  {
    hide FlushedBoth, BlockEvents;
    if deed.Acts? { BlockEventsAreValid(l.ticks, deed.action); }
  }

  lemma CommandInStep(s: Scheduler.State, l: Life, c: Config, command: Scheduler.Command, answers: Answers)
    requires l.hosted.devices.Valid() && l.ticks == s.cpu.ticks && CommandFits(s, l, c, command, answers)
    ensures AllPermitted(CommandDeeds(s, command, answers))
    ensures Lived(l, c, CommandDeeds(s, command, answers)).ticks == Scheduler.Commanded(s, command).cpu.ticks
  {
    CommandPermitted(s, command, answers);
    hide FlushedBoth, Restarted, Replaces;
    var deeds := CommandDeeds(s, command, answers);
    if deeds != [] { OneDeed(l, c, deeds[0]); }
  }

  lemma OneDeed(l: Life, c: Config, deed: Deed)
    requires l.hosted.devices.Valid() && Permitted(deed)
    ensures Lived(l, c, [deed]) == Done(l, c, deed)
  {
    hide Done;
    assert [deed][1..] == [];
    assert Lived(Done(l, c, deed), c, []) == Done(l, c, deed);
  }

  lemma {:induction false} CommandsInStep(s: Scheduler.State, l: Life, c: Config, commands: seq<Scheduler.Command>, answers: seq<Answers>)
    requires l.hosted.devices.Valid() && l.ticks == s.cpu.ticks && |commands| == |answers| && CommandsFit(s, l, c, commands, answers)
    ensures AllPermitted(CommandsDeeds(s, commands, answers))
    ensures Lived(l, c, CommandsDeeds(s, commands, answers)).ticks == Scheduler.CommandedAll(s, commands).cpu.ticks
    decreases |commands|
  {
    CommandsPermitted(s, commands, answers);
    if commands != [] && !s.lifecycle.Ended? {
      hide AllPermitted, CommandDeeds, Scheduler.Commanded, CommandFits, Done;
      var first, next := CommandDeeds(s, commands[0], answers[0]), Scheduler.Commanded(s, commands[0]);
      CommandInStep(s, l, c, commands[0], answers[0]);
      CommandsInStep(next, Lived(l, c, first), c, commands[1..], answers[1..]);
      LivedJoins(l, c, first, CommandsDeeds(next, commands[1..], answers[1..]));
    }
  }

  lemma {:induction false} GuestTakesItsTicks(l: Life, c: Config, guest: seq<Action>)
    requires l.hosted.devices.Valid() && forall i | 0 <= i < |guest| :: IsGuestWork(guest[i])
    ensures AllPermitted(GuestDeeds(guest)) && Lived(l, c, GuestDeeds(guest)).ticks == EndTick(l.ticks, guest)
    decreases |guest|
  {
    if guest != [] {
      assert IsGuestWork(guest[0]);
      assert GuestDeeds(guest)[1..] == GuestDeeds(guest[1..]);
      var next := Done(l, c, Acts(guest[0]));
      ActTakesItsTicks(l, c, guest[0]);
      hide Done, IsGuestWork;
      GuestTakesItsTicks(next, c, guest[1..]);
    }
  }

  lemma ActTakesItsTicks(l: Life, c: Config, a: Action)
    requires l.hosted.devices.Valid() && Permitted(Acts(a))
    ensures Done(l, c, Acts(a)).ticks == TickAfter(l.ticks, a)
  {
    BlockEventsAreValid(l.ticks, a);
    hide BlockEvents, WriteBack.Run;
  }

  lemma InboxIsTimeless(inbox: seq<(Port, u8)>)
    ensures AllTimeless(InboxDeeds(inbox)) && AllPermitted(InboxDeeds(inbox))
  {}

  lemma ExecutedCpu(ready: Scheduler.State, batch: nat, o: Backend.Oracle)
    ensures Scheduler.Executed(ready, batch, o).cpu
         == Backend.Ran(ready.cpu, Scheduler.Budget(ready, batch), Scheduler.Boundary(ready), o).0
  {
    hide Backend.Ran, Scheduler.Budget, Scheduler.Boundary;
  }

  /** The state of the machine's clock after the batch of a running service. */
  function BatchEnd(ready: Scheduler.State, batch: nat, o: Backend.Oracle): nat {
    if Backend.Reached(ready.cpu.ticks, ready.deadline) then ready.cpu.ticks
    else Backend.Ran(ready.cpu, Scheduler.Budget(ready, batch), Scheduler.Boundary(ready), o).0.ticks
  }

  lemma StopIsTimeless(ready: Scheduler.State, batch: nat, o: Backend.Oracle, x: HostTurn)
    ensures AllTimeless(StopDeeds(ready, batch, o, x)) && AllPermitted(StopDeeds(ready, batch, o, x))
  {
    hide Scheduler.Executed;
  }

  /** A batch keeps the machine's clock with the backend's. */
  lemma BatchInStep(ready: Scheduler.State, l: Life, c: Config, batch: nat, o: Backend.Oracle, x: HostTurn)
    requires l.hosted.devices.Valid() && l.ticks == ready.cpu.ticks && GuestFits(ready, batch, o, x)
    ensures AllPermitted(BatchDeeds(ready, batch, o, x))
    ensures Lived(l, c, BatchDeeds(ready, batch, o, x)).ticks == BatchEnd(ready, batch, o)
  {
    hide Scheduler.Executed, Scheduler.Budget, Scheduler.Boundary, Backend.Ran, InboxDeeds, GuestDeeds, StopDeeds, Done, AllTimeless;
    if Backend.Reached(ready.cpu.ticks, ready.deadline) {
      OneDeed(l, c, Flushes(x.writable));
      TimelessKeepsOneTick(l, c, Flushes(x.writable));
      FlushPermitted(x.writable);
    } else {
      hide AllPermitted;
      InboxIsTimeless(x.inbox);
      TimelessKeepsTick(l, c, InboxDeeds(x.inbox));
      var drained := Lived(l, c, InboxDeeds(x.inbox));
      GuestTakesItsTicks(drained, c, x.guest);
      LivedJoins(l, c, InboxDeeds(x.inbox), GuestDeeds(x.guest));
      var ran := Lived(l, c, InboxDeeds(x.inbox) + GuestDeeds(x.guest));
      StopIsTimeless(ready, batch, o, x);
      TimelessKeepsTick(ran, c, StopDeeds(ready, batch, o, x));
      LivedJoins(l, c, InboxDeeds(x.inbox) + GuestDeeds(x.guest), StopDeeds(ready, batch, o, x));
    }
  }

  lemma FlushPermitted(writable: Paths)
    ensures AllPermitted([Flushes(writable)])
  {}

  lemma BodyInStep(s: Scheduler.State, l: Life, c: Config, batch: nat, t: Scheduler.Turn, x: HostTurn)
    requires l.hosted.devices.Valid() && l.ticks == s.cpu.ticks && BodyFits(s, l, c, batch, t, x)
    ensures AllPermitted(BodyDeeds(s, batch, t, x))
    ensures Lived(l, c, BodyDeeds(s, batch, t, x)).ticks == AfterCommands(s, batch, t).cpu.ticks
  {
    hide Scheduler.Commanded, Scheduler.Executed, CommandDeeds, Done, BatchDeeds, DeliveryDeeds, AllTimeless, Scheduler.DeliveredDue,
         GuestFits, CommandFits;
    match s.lifecycle
    case Ended =>
    case Running =>
      Scheduler.DeliveryOnlyDelivers(s);
      DeliveryIsTimeless(s);
      TimelessKeepsTick(l, c, DeliveryDeeds(s));
      var ready := Scheduler.DeliveredDue(s);
      BatchInStep(ready, Lived(l, c, DeliveryDeeds(s)), c, batch, t.oracle, x);
      ExecutedCpu(ready, batch, t.oracle);
      hide AllPermitted;
      LivedJoins(l, c, DeliveryDeeds(s), BatchDeeds(ready, batch, t.oracle, x));
    case Paused =>
      if t.waited.Some? { CommandInStep(s, l, c, t.waited.value, x.waited); }
  }

  /** The rest of a turn, once its queued commands are processed. */
  function AfterCommands(s: Scheduler.State, batch: nat, t: Scheduler.Turn): Scheduler.State {
    match s.lifecycle
    case Ended => s
    case Running => Scheduler.RunningTurn(s, batch, t.oracle)
    case Paused => if t.waited.Some? then Scheduler.Commanded(s, t.waited.value) else s
  }

  /** One turn: whatever it does to the machine, the clocks agree at its end. */
  lemma TurnInStep(s: Scheduler.State, l: Life, c: Config, batch: nat, t: Scheduler.Turn, x: HostTurn)
    requires l.hosted.devices.Valid() && l.ticks == s.cpu.ticks && TurnFits(s, l, c, batch, t, x)
    ensures AllPermitted(TurnDeeds(s, batch, t, x))
    ensures Lived(l, c, TurnDeeds(s, batch, t, x)).ticks == Scheduler.Step(s, batch, t).cpu.ticks
  {
    hide Scheduler.CommandedAll, Scheduler.Commanded, Scheduler.RunningTurn, CommandsDeeds, BodyDeeds, CommandsFit, BodyFits, AllPermitted,
         Done;
    CommandsInStep(s, l, c, t.commands, x.commands);
    var after := Scheduler.CommandedAll(s, t.commands);
    var life := Lived(l, c, CommandsDeeds(s, t.commands, x.commands));
    BodyInStep(after, life, c, batch, t, x);
    LivedJoins(l, c, CommandsDeeds(s, t.commands, x.commands), BodyDeeds(after, batch, t, x));
  }

  // ---- Whole runs ----

  function RunDeeds(s: Scheduler.State, batch: nat, turns: seq<Scheduler.Turn>, xs: seq<HostTurn>): seq<Deed>
    requires |turns| == |xs|
    decreases |turns|
  {
    if turns == [] || s.lifecycle.Ended? || |turns[0].commands| != |xs[0].commands| then []
    else TurnDeeds(s, batch, turns[0], xs[0]) + RunDeeds(Scheduler.Step(s, batch, turns[0]), batch, turns[1..], xs[1..])
  }

  ghost predicate RunFits(s: Scheduler.State, l: Life, c: Config, batch: nat, turns: seq<Scheduler.Turn>, xs: seq<HostTurn>)
    requires l.hosted.devices.Valid() && l.ticks == s.cpu.ticks && |turns| == |xs|
    decreases |turns|
  {
    turns == [] || s.lifecycle.Ended? ||
    (&& TurnFits(s, l, c, batch, turns[0], xs[0])
     && (TurnInStep(s, l, c, batch, turns[0], xs[0]);
         RunFits(Scheduler.Step(s, batch, turns[0]), Lived(l, c, TurnDeeds(s, batch, turns[0], xs[0])), c, batch, turns[1..], xs[1..])))
  }

  /** Every run of the service, over any commands, inputs, guests, engine outcomes and failures
      of host writes, drives its machine through permitted deeds. At its end the machine's clock
      is the scheduler's, and the machine is sound: levels replay, the timer is in phase, no
      request is overdue, and every unit with a host file agrees with it. */
  lemma {:induction false} ServiceRunIsSound(
    s: Scheduler.State, l: Life, c: Config, batch: nat, turns: seq<Scheduler.Turn>, xs: seq<HostTurn>)
    requires Sound(l, c) && l.hosted.devices.Valid() && l.ticks == s.cpu.ticks && |turns| == |xs|
    requires RunFits(s, l, c, batch, turns, xs)
    ensures AllPermitted(RunDeeds(s, batch, turns, xs))
    ensures var after := Lived(l, c, RunDeeds(s, batch, turns, xs));
      after.ticks == Scheduler.Run(s, batch, turns).cpu.ticks && Sound(after, c)
    decreases |turns|
  {
    if turns != [] && !s.lifecycle.Ended? {
      hide Scheduler.Step, TurnDeeds, TurnFits, AllPermitted, Done, Sound;
      var deeds, next := TurnDeeds(s, batch, turns[0], xs[0]), Scheduler.Step(s, batch, turns[0]);
      TurnInStep(s, l, c, batch, turns[0], xs[0]);
      LifeIsSound(l, c, deeds);
      ServiceRunIsSound(next, Lived(l, c, deeds), c, batch, turns[1..], xs[1..]);
      LivedJoins(l, c, deeds, RunDeeds(next, batch, turns[1..], xs[1..]));
    }
  }

  /** From the start: a service over a freshly configured machine keeps it sound for ever, and
      the machine itself never runs past the execution deadline. */
  lemma EveryServiceRunIsSound(
    source: Hosted, c: Config, readable: Paths, startPaused: bool, deadline: Option<nat>, inputs: seq<Scheduler.Input>,
    batch: nat, turns: seq<Scheduler.Turn>, xs: seq<HostTurn>)
    requires source.devices.Valid() && Configured(source, c.paths, readable, c.writes).Some?
    requires FilesAddressable(source.files, c.paths) && 0 < batch && |turns| == |xs|
    requires forall i | 0 <= i < |turns| :: turns[i].Valid()
    requires RunFits(Scheduler.Initial(startPaused, deadline, inputs), StartOf(source, c, readable), c, batch, turns, xs)
    ensures var s := Scheduler.Initial(startPaused, deadline, inputs);
      && AllPermitted(RunDeeds(s, batch, turns, xs))
      && var after := Lived(StartOf(source, c, readable), c, RunDeeds(s, batch, turns, xs));
         Sound(after, c) && (deadline.Some? ==> after.ticks <= deadline.value)
  {
    hide Configured, Sound, RunFits, RunDeeds, AllPermitted, Scheduler.Run, Scheduler.Schedule, Scheduler.AllExact;
    var s := Scheduler.Initial(startPaused, deadline, inputs);
    StartIsSound(source, c, readable);
    ServiceRunIsSound(s, StartOf(source, c, readable), c, batch, turns, xs);
    Scheduler.SchedulingIsExact(startPaused, deadline, inputs, batch, turns);
  }

  /** The life of a machine configured from `source`. */
  function StartOf(source: Hosted, c: Config, readable: Paths): (l: Life)
    requires source.devices.Valid() && Configured(source, c.paths, readable, c.writes).Some?
    ensures l.hosted.devices.Valid()
  {
    Life(source.(devices := Configured(source, c.paths, readable, c.writes).value), 0)
  }

  /** The receive actions that the deliveries of a log stand for. */
  function ReceivesOf(log: seq<Scheduler.Entry>): seq<Deed> {
    if log == [] then []
    else
      (if log[0].Delivered?
       then Received(if log[0].input.port == 0 then Port.Uart0 else Port.Uart1, log[0].input.bytes) else [])
      + ReceivesOf(log[1..])
  }

  /** What the machine receives is what the log says is delivered, byte for byte and in order. */
  lemma {:induction false} DeliveriesAreReceived(s: Scheduler.State)
    ensures s.log <= Scheduler.DeliveredDue(s).log
    ensures DeliveryDeeds(s) == ReceivesOf(Scheduler.DeliveredDue(s).log[|s.log|..])
    decreases |s.scheduled|
  {
    if s.scheduled != [] && s.scheduled[0].atTick <= s.cpu.ticks {
      var next, all := Scheduler.DeliveredFirst(s), Scheduler.DeliveredDue(s).log;
      DeliveriesAreReceived(next);
      hide Received;
      assert all[|s.log|..][0] == Scheduler.Delivered(s.cpu.ticks, s.scheduled[0]);
      assert all[|s.log|..][1..] == all[|next.log|..];
    } else {
      assert Scheduler.DeliveredDue(s).log[|s.log|..] == [];
    }
  }

  // ---- Every byte from the host ----

  /** The bytes that deeds bring to a UART from the host, in order. */
  function HostBytes(deeds: seq<Deed>, port: Port): seq<u8> {
    if deeds == [] then []
    else
      (match deeds[0]
       case Acts(Host(UartOp(to, Receive(byte)))) => if to == port then [byte] else []
       case _ => [])
      + HostBytes(deeds[1..], port)
  }

  /** The bytes of the inputs that a log says were delivered to a UART. */
  function LoggedBytes(log: seq<Scheduler.Entry>, port: Port): seq<u8> {
    if log == [] then []
    else
      (match log[0]
       case Delivered(_, input) => if (input.port == 0) == port.Uart0? then input.bytes else []
       case _ => [])
      + LoggedBytes(log[1..], port)
  }

  function InboxBytes(inbox: seq<(Port, u8)>, port: Port): seq<u8> {
    if inbox == [] then [] else (if inbox[0].0 == port then [inbox[0].1] else []) + InboxBytes(inbox[1..], port)
  }

  lemma {:induction false} HostBytesJoin(a: seq<Deed>, b: seq<Deed>, port: Port)
    ensures HostBytes(a + b, port) == HostBytes(a, port) + HostBytes(b, port)
    decreases |a|
  {
    if a == [] {
      assert a + b == b;
    } else {
      assert (a + b)[0] == a[0] && (a + b)[1..] == a[1..] + b;
      HostBytesJoin(a[1..], b, port);
    }
  }

  lemma {:induction false} ReceivedBytes(to: Port, bytes: seq<u8>, port: Port)
    ensures HostBytes(Received(to, bytes), port) == if to == port then bytes else []
    decreases |bytes|
  {
    if bytes != [] {
      assert Received(to, bytes)[1..] == Received(to, bytes[1..]);
      ReceivedBytes(to, bytes[1..], port);
    }
  }

  lemma {:induction false} InboxDeedBytes(inbox: seq<(Port, u8)>, port: Port)
    ensures HostBytes(InboxDeeds(inbox), port) == InboxBytes(inbox, port)
    decreases |inbox|
  {
    if inbox != [] {
      assert InboxDeeds(inbox)[1..] == InboxDeeds(inbox[1..]);
      InboxDeedBytes(inbox[1..], port);
    }
  }

  lemma {:induction false} GuestBringsNone(guest: seq<Action>, port: Port)
    requires forall i | 0 <= i < |guest| :: IsGuestWork(guest[i])
    ensures HostBytes(GuestDeeds(guest), port) == []
    decreases |guest|
  {
    if guest != [] {
      assert IsGuestWork(guest[0]);
      assert GuestDeeds(guest)[1..] == GuestDeeds(guest[1..]);
      GuestBringsNone(guest[1..], port);
    }
  }

  lemma {:induction false} DeliveredBytes(s: Scheduler.State, port: Port)
    ensures s.log <= Scheduler.DeliveredDue(s).log
    ensures HostBytes(DeliveryDeeds(s), port) == LoggedBytes(Scheduler.DeliveredDue(s).log[|s.log|..], port)
    decreases |s.scheduled|
  {
    if s.scheduled != [] && s.scheduled[0].atTick <= s.cpu.ticks {
      var next, all := Scheduler.DeliveredFirst(s), Scheduler.DeliveredDue(s).log;
      var first := Received(PortOf(s.scheduled[0].port), s.scheduled[0].bytes);
      DeliveredBytes(next, port);
      assert all[|s.log|..][0] == Scheduler.Delivered(s.cpu.ticks, s.scheduled[0]);
      assert all[|s.log|..][1..] == all[|next.log|..];
      HostBytesJoin(first, DeliveryDeeds(next), port);
      ReceivedBytes(PortOf(s.scheduled[0].port), s.scheduled[0].bytes, port);
      hide Received;
    } else {
      assert Scheduler.DeliveredDue(s).log[|s.log|..] == [];
    }
  }

  /** In a turn of a running service each UART gets from the host exactly the bytes of the inputs
      that are due, in schedule order, and then, unless the deadline is reached, those of the
      inbox. */
  lemma TurnBringsBytes(s: Scheduler.State, batch: nat, t: Scheduler.Turn, x: HostTurn, port: Port)
    requires s.lifecycle.Running? && t.commands == [] && x.commands == [] && GuestFits(Scheduler.DeliveredDue(s), batch, t.oracle, x)
    ensures var delivered := Scheduler.DeliveredDue(s).log;
      && s.log <= delivered
      && HostBytes(TurnDeeds(s, batch, t, x), port)
         == LoggedBytes(delivered[|s.log|..], port)
            + if s.deadline.Some? && s.deadline.value <= s.cpu.ticks then [] else InboxBytes(x.inbox, port)
  {
    var ready := Scheduler.DeliveredDue(s);
    Scheduler.DeliveryOnlyDelivers(s);
    DeliveredBytes(s, port);
    assert TurnDeeds(s, batch, t, x) == DeliveryDeeds(s) + BatchDeeds(ready, batch, t.oracle, x);
    HostBytesJoin(DeliveryDeeds(s), BatchDeeds(ready, batch, t.oracle, x), port);
    BatchBytes(ready, batch, t.oracle, x, port);
  }

  lemma BatchBytes(ready: Scheduler.State, batch: nat, o: Backend.Oracle, x: HostTurn, port: Port)
    requires GuestFits(ready, batch, o, x)
    ensures HostBytes(BatchDeeds(ready, batch, o, x), port)
         == if Backend.Reached(ready.cpu.ticks, ready.deadline) then [] else InboxBytes(x.inbox, port)
  {
    hide Scheduler.Executed, Scheduler.Budget, Scheduler.Boundary, Backend.Ran, InboxDeeds, GuestDeeds;
    FlushBringsNone(x.writable, port);
    if !Backend.Reached(ready.cpu.ticks, ready.deadline) {
      HostBytesJoin(InboxDeeds(x.inbox) + GuestDeeds(x.guest), StopDeeds(ready, batch, o, x), port);
      HostBytesJoin(InboxDeeds(x.inbox), GuestDeeds(x.guest), port);
      InboxDeedBytes(x.inbox, port);
      GuestBringsNone(x.guest, port);
    }
  }

  lemma FlushBringsNone(writable: Paths, port: Port)
    ensures HostBytes([Flushes(writable)], port) == [] && HostBytes([], port) == []
  {}
}
