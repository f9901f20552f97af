/** The block device's promises for whole runs of the machine: its commands complete on time
    and its media agrees with the host files, whatever guest and host do meanwhile
    (crates/minemu-core/src/machine.rs, bus.rs and block.rs). */
module MachineRuns {
  import opened Platform
  import opened Memory
  import opened Bus
  import Block
  import Timer
  import WriteBack

  ghost predicate AllAllowed(actions: seq<Action>) {
    forall i | 0 <= i < |actions| :: Allowed(actions[i])
  }

  /** What an action at tick `ticks` is for the block device, memory and the host files. */
  function BlockEvents(ticks: nat, a: Action): seq<WriteBack.Event> {
    match a
    case Guest(BlockOp(u)) => [WriteBack.Input(u, ticks)]
    case Host(BlockOp(u)) => [WriteBack.Input(u, ticks)]
    case Host(BlockFlush(unit, writable)) => [WriteBack.Flush(unit, writable)]
    case Stores(memory) => [WriteBack.GuestStores(memory)]
    case Ticks(count) => if count == 0 then [] else [WriteBack.Tick(ticks + count)]
    case _ => []
  }

  function TickAfter(ticks: nat, a: Action): nat { if a.Ticks? then ticks + a.count else ticks }

  function EndTick(ticks: nat, actions: seq<Action>): (end: nat)
    ensures ticks <= end
    decreases |actions|
  {
    if actions == [] then ticks else EndTick(TickAfter(ticks, actions[0]), actions[1..])
  }

  function RunEvents(ticks: nat, actions: seq<Action>): seq<WriteBack.Event>
    decreases |actions|
  {
    if actions == [] then []
    else BlockEvents(ticks, actions[0]) + RunEvents(TickAfter(ticks, actions[0]), actions[1..])
  }

  /** The block device, memory and host files of a machine. */
  function WorldOf(d: Devices, host: seq<seq<u8>>): WriteBack.World { WriteBack.World(d.block, d.memory, host) }

  // ---- Machine runs are block-device runs ----

  lemma AdvancedBlock(d: Devices, now: nat)
    requires d.Valid()
    ensures (Advanced(d, now).block, Advanced(d, now).memory) == Block.Advanced(d.block, d.memory, now)
  {
    hide Timer.Step, Block.Execute;
  }

  lemma GuestStepBlock(d: Devices, ticks: nat, op: Op)
    requires d.Valid() && IsGuest(op)
    ensures Accessed(d, op, ticks).memory == d.memory
    ensures Accessed(d, op, ticks).block == if op.BlockOp? then Block.Updated(d.block, op.block, ticks) else d.block
  {
    hide Timer.Step, Block.Execute, Block.Updated;
  }

  lemma HostStepBlock(d: Devices, ticks: nat, op: Op)
    requires d.Valid() && Allowed(Host(op))
    ensures Step(d, op, ticks).memory == d.memory
    ensures Step(d, op, ticks).block ==
      match op
      case BlockOp(u) => Block.Updated(d.block, u, ticks)
      case BlockFlush(unit, writable) => Block.Flushed(d.block, unit, writable).0
      case _ => d.block
  {
    hide Timer.Step, Block.Execute, Block.Flushed;
    RefusedChangesNothing(d.block, if op.BlockOp? then op.block else Block.Ack, ticks);
    hide Block.Updated;
  }

  lemma OneEvent(w: WriteBack.World, e: WriteBack.Event)
    requires w.Valid() && (e.GuestStores? ==> e.memory.Valid())
    ensures WriteBack.ValidRun([e]) && WriteBack.Run(w, [e]) == WriteBack.Step(w, e)
  {
    hide WriteBack.Step;
    assert [e][1..] == [];
    assert WriteBack.Run(WriteBack.Step(w, e), []) == WriteBack.Step(w, e);
  }

  lemma BlockEventsAreValid(ticks: nat, a: Action)
    requires Allowed(a)
    ensures WriteBack.ValidRun(BlockEvents(ticks, a))
  {}

  /** One action of the machine is that event of the block device. */
  lemma ActedIsBlockRun(d: Devices, ticks: nat, a: Action, host: seq<seq<u8>>)
    requires d.Valid() && Allowed(a) && |host| == Block.UNIT_COUNT
    ensures WriteBack.ValidRun(BlockEvents(ticks, a)) && Acted(d, ticks, a).1 == TickAfter(ticks, a)
    ensures var w := WriteBack.Run(WorldOf(d, host), BlockEvents(ticks, a));
      w == WorldOf(Acted(d, ticks, a).0, w.host)
  {
    BlockEventsAreValid(ticks, a);
    var events, w := BlockEvents(ticks, a), WorldOf(d, host);
    if |events| == 1 { OneEvent(w, events[0]); }
    hide WriteBack.Run, Block.Updated, Block.Advanced, Block.Flushed, Step, Accessed, Advanced, Ticked, Block.Refused;
    match a
    case Guest(op) => GuestStepBlock(d, ticks, op);
    case Host(op) => HostStepBlock(d, ticks, op);
    case Stores(memory) =>
    case Ticks(count) =>
      if count > 0 {
        TickingIsJumping(d, ticks, count);
        AdvancedBlock(d, ticks + count);
      }
  }

  lemma JoinIsValid(first: seq<WriteBack.Event>, second: seq<WriteBack.Event>)
    requires WriteBack.ValidRun(first) && WriteBack.ValidRun(second)
    ensures WriteBack.ValidRun(first + second)
    ensures first != [] ==> WriteBack.ValidRun(first[1..]) && (first + second)[0] == first[0] && (first + second)[1..] == first[1..] + second
  {}

  lemma {:induction false} RunSplits(w: WriteBack.World, first: seq<WriteBack.Event>, second: seq<WriteBack.Event>)
    requires w.Valid() && WriteBack.ValidRun(first) && WriteBack.ValidRun(second)
    ensures WriteBack.ValidRun(first + second)
    ensures WriteBack.Run(w, first + second) == WriteBack.Run(WriteBack.Run(w, first), second)
    decreases |first|
  {
    JoinIsValid(first, second);
    if first == [] {
      assert first + second == second;
      hide WriteBack.Step, WriteBack.ValidRun;
    } else {
      assert first[0].GuestStores? ==> first[0].memory.Valid();
      hide WriteBack.Step, WriteBack.ValidRun;
      RunSplits(WriteBack.Step(w, first[0]), first[1..], second);
    }
  }

  /** A run of the machine is, for its block device, memory and host files, a run of events. */
  lemma {:induction false} PlayedIsBlockRun(d: Devices, ticks: nat, actions: seq<Action>, host: seq<seq<u8>>)
    requires d.Valid() && AllAllowed(actions) && |host| == Block.UNIT_COUNT
    ensures WriteBack.ValidRun(RunEvents(ticks, actions)) && Played(d, ticks, actions).1 == EndTick(ticks, actions)
    ensures var w := WriteBack.Run(WorldOf(d, host), RunEvents(ticks, actions));
      w == WorldOf(Played(d, ticks, actions).0, w.host)
    decreases |actions|
  {
    if actions != [] {
      var a, rest := actions[0], actions[1..];
      var (next, now) := Acted(d, ticks, a);
      ActedIsBlockRun(d, ticks, a, host);
      var w := WriteBack.Run(WorldOf(d, host), BlockEvents(ticks, a));
      PlayedIsBlockRun(next, now, rest, w.host);
      RunSplits(WorldOf(d, host), BlockEvents(ticks, a), RunEvents(now, rest));
      hide WriteBack.Run, WriteBack.ValidRun, BlockEvents, Acted;
    }
  }

  // ---- Write-back agreement ----

  /** The host files after a run. */
  ghost function HostAfter(d: Devices, ticks: nat, actions: seq<Action>, host: seq<seq<u8>>): (r: seq<seq<u8>>)
    requires d.Valid() && AllAllowed(actions) && |host| == Block.UNIT_COUNT
    ensures |r| == Block.UNIT_COUNT
  {
    PlayedIsBlockRun(d, ticks, actions, host);
    WriteBack.Run(WorldOf(d, host), RunEvents(ticks, actions)).host
  }

  /** Media that the host attaches has fewer than 2^32 sectors. */
  predicate AttachesAddressable(a: Action) {
    match a case Host(BlockOp(Attach(_, media))) => WriteBack.Addressable(media) case _ => true
  }

  lemma {:induction false} RunEventsAddressable(ticks: nat, actions: seq<Action>)
    requires AllAllowed(actions) && forall i | 0 <= i < |actions| :: AttachesAddressable(actions[i])
    ensures forall i | 0 <= i < |RunEvents(ticks, actions)| :: WriteBack.AttachesAddressable(RunEvents(ticks, actions)[i])
    decreases |actions|
  {
    if actions != [] {
      assert AttachesAddressable(actions[0]) && Allowed(actions[0]);
      RunEventsAddressable(TickAfter(ticks, actions[0]), actions[1..]);
      var events := BlockEvents(ticks, actions[0]);
      assert forall i | 0 <= i < |events| :: WriteBack.AttachesAddressable(events[i]);
    }
  }

  /** In every run of the machine, a unit that agrees with its host file keeps doing so. */
  lemma MediaAgreesInEveryRun(d: Devices, ticks: nat, actions: seq<Action>, host: seq<seq<u8>>, i: nat)
    requires d.Valid() && AllAllowed(actions) && |host| == Block.UNIT_COUNT
    requires forall k | 0 <= k < |actions| :: AttachesAddressable(actions[k])
    requires i < Block.UNIT_COUNT && WriteBack.UnitAgrees(d.block.units[i], host[i])
    ensures WriteBack.UnitAgrees(Played(d, ticks, actions).0.block.units[i], HostAfter(d, ticks, actions, host)[i])
  {
    hide WriteBack.Run, WriteBack.UnitAgrees, Played, RunEvents;
    PlayedIsBlockRun(d, ticks, actions, host);
    RunEventsAddressable(ticks, actions);
    WriteBack.RunAgrees(WorldOf(d, host), RunEvents(ticks, actions), i);
  }

  // ---- Commands on time ----

  lemma {:induction false} RunEventsEndInTime(ticks: nat, actions: seq<Action>)
    ensures forall i | 0 <= i < |RunEvents(ticks, actions)| && RunEvents(ticks, actions)[i].Tick? ::
              RunEvents(ticks, actions)[i].now <= EndTick(ticks, actions)
    decreases |actions|
  {
    if actions != [] {
      RunEventsEndInTime(TickAfter(ticks, actions[0]), actions[1..]);
      var events := BlockEvents(ticks, actions[0]);
      assert forall i | 0 <= i < |events| && events[i].Tick? :: events[i].now == TickAfter(ticks, actions[0]);
    }
  }

  /** A command that the guest writes to the idle controller at tick T is active after every
      run of the machine that ends before T + 32. Ticking on to T + 32 completes it, with the
      result of the registers as they were at T on the media and memory of T + 32. */
  lemma CommandCompletesOnTime(d: Devices, T: nat, command: u32, actions: seq<Action>)
    requires d.Valid() && d.block.active.None? && AllAllowed(actions) && EndTick(T, actions) < T + 32
    ensures Allowed(Guest(BlockOp(Block.Command(command))))
    ensures var b := d.block;
      var q := Block.Request(command, b.lba, b.sectorCount, b.dmaAddress, b.unit, T + 32);
      var accepted := Acted(d, T, Guest(BlockOp(Block.Command(command)))).0;
      var late, end := Played(accepted, T, actions).0, EndTick(T, actions);
      var effect := Block.Execute(q, late.block.units, late.memory);
      var done := Acted(late, end, Ticks(T + 32 - end)).0;
      && accepted.block.active == late.block.active == Some(q) && Played(accepted, T, actions).1 == end
      && done.block == late.block.(active := None, complete := true, error := effect.error, units := effect.units)
      && done.memory == effect.memory
  {
    hide Block.Execute, Played, Ticked, Advanced, WriteBack.Run, RunEvents, EndTick;
    var b := d.block;
    var q := Block.Request(command, b.lba, b.sectorCount, b.dmaAddress, b.unit, T + 32);
    GuestStepBlock(d, T, BlockOp(Block.Command(command)));
    hide Accessed;
    var accepted := Acted(d, T, Guest(BlockOp(Block.Command(command)))).0;
    var host := [[], []];
    PlayedIsBlockRun(accepted, T, actions, host);
    RunEventsEndInTime(T, actions);
    WriteBack.BusyUntilDeadline(WorldOf(accepted, host), RunEvents(T, actions), q);
    var late, end := Played(accepted, T, actions).0, EndTick(T, actions);
    TickingIsJumping(late, end, T + 32 - end);
    AdvancedBlock(late, T + 32);
  }
}
