/** A service that is not running owes its host files nothing: pauses, breakpoints, limits,
    deadlines, errors and shutdowns all flush (crates/minemu-runtime/src/service.rs). */
module Persistence {
  import opened Platform
  import opened Bus
  import opened Emulation
  import opened Lifetime
  import opened ServiceRuns
  import Block
  import Backend
  import Scheduler
  import WriteBack

  /** No unit with a host file has a dirty sector. */
  ghost predicate Clean(l: Life, c: Config)
    requires l.hosted.devices.Valid()
  {
    forall i: nat | i < Block.UNIT_COUNT && c.paths[i] :: UnitOf(l.hosted, i).dirty == {}
  }

  /** The service runs, or nothing is dirty. */
  ghost predicate CleanUnlessRunning(s: Scheduler.State, l: Life, c: Config) {
    l.hosted.devices.Valid() && (s.lifecycle.Running? || Clean(l, c))
  }

  /** Every host write that is asked for succeeds. */
  predicate Writable(paths: Paths, writable: Paths) { (paths[0] ==> writable[0]) && (paths[1] ==> writable[1]) }

  predicate AllWritable(paths: Paths, answers: seq<Answers>) {
    forall i | 0 <= i < |answers| :: Writable(paths, answers[i].writable)
  }

  predicate HostWrites(paths: Paths, x: HostTurn) {
    AllWritable(paths, x.commands) && Writable(paths, x.waited.writable) && Writable(paths, x.writable)
  }

  lemma FlushCleans(l: Life, c: Config, writable: Paths)
    requires Sound(l, c) && Writable(c.paths, writable)
    ensures l.hosted.devices.Valid() && Clean(Done(l, c, Flushes(writable)), c)
  {
    SettledIsValid(l);
    hide AllAgree, Settled;
    FlushAttemptsBoth(l.hosted, c.paths, writable);
    hide FlushedBoth, Block.FlushFails;
  }

  /** A reset flushes first, and the machine it configures starts clean. */
  lemma ResetCleans(l: Life, c: Config, answers: Answers)
    requires Sound(l, c) && Writable(c.paths, answers.writable)
    ensures l.hosted.devices.Valid() && Clean(Done(l, c, Resets(answers)), c)
  {
    FlushCleans(l, c, answers.writable);
    SettledIsValid(l);
    hide AllAgree, Settled, FlushedBoth, Restarted, Replaces;
    RestartedReloads(l.hosted, c.paths, c.writes, answers);
  }

  /** A flush as the last deed leaves nothing dirty. */
  lemma EndsClean(l: Life, c: Config, deeds: seq<Deed>, writable: Paths)
    requires Sound(l, c) && l.hosted.devices.Valid() && AllPermitted(deeds) && Writable(c.paths, writable)
    ensures AllPermitted(deeds + [Flushes(writable)]) && Clean(Lived(l, c, deeds + [Flushes(writable)]), c)
  {
    hide Sound, Done, Clean;
    FlushPermitted(writable);
    LivedJoins(l, c, deeds, [Flushes(writable)]);
    LifeIsSound(l, c, deeds);
    OneDeed(Lived(l, c, deeds), c, Flushes(writable));
    FlushCleans(Lived(l, c, deeds), c, writable);
  }

  lemma CommandCleans(s: Scheduler.State, l: Life, c: Config, command: Scheduler.Command, answers: Answers)
    requires CleanUnlessRunning(s, l, c) && Sound(l, c) && Writable(c.paths, answers.writable)
    ensures AllPermitted(CommandDeeds(s, command, answers))
    ensures CleanUnlessRunning(Scheduler.Commanded(s, command), Lived(l, c, CommandDeeds(s, command, answers)), c)
    ensures Sound(Lived(l, c, CommandDeeds(s, command, answers)), c)
  {
    CommandPermitted(s, command, answers);
    LifeIsSound(l, c, CommandDeeds(s, command, answers));
    hide Sound, Done, Clean, AllPermitted;
    var deeds := CommandDeeds(s, command, answers);
    FlushCleans(l, c, answers.writable);
    ResetCleans(l, c, answers);
    OneDeed(l, c, Flushes(answers.writable));
    OneDeed(l, c, Resets(answers));
  }

  lemma {:induction false} CommandsClean(s: Scheduler.State, l: Life, c: Config, commands: seq<Scheduler.Command>, answers: seq<Answers>)
    requires CleanUnlessRunning(s, l, c) && Sound(l, c) && |commands| == |answers| && AllWritable(c.paths, answers)
    ensures AllPermitted(CommandsDeeds(s, commands, answers))
    ensures CleanUnlessRunning(Scheduler.CommandedAll(s, commands), Lived(l, c, CommandsDeeds(s, commands, answers)), c)
    ensures Sound(Lived(l, c, CommandsDeeds(s, commands, answers)), c)
    decreases |commands|
  {
    CommandsPermitted(s, commands, answers);
    if commands != [] && !s.lifecycle.Ended? {
      assert Writable(c.paths, answers[0].writable) && AllWritable(c.paths, answers[1..]);
      hide AllPermitted, CommandDeeds, Scheduler.Commanded, Done, Sound, Clean, AllWritable, Writable;
      var first, next := CommandDeeds(s, commands[0], answers[0]), Scheduler.Commanded(s, commands[0]);
      CommandCleans(s, l, c, commands[0], answers[0]);
      CommandsClean(next, Lived(l, c, first), c, commands[1..], answers[1..]);
      LivedJoins(l, c, first, CommandsDeeds(next, commands[1..], answers[1..]));
    }
  }

  /** The batch of a running service: if the service then no longer runs, a flush came last. */
  lemma BatchCleans(ready: Scheduler.State, l: Life, c: Config, batch: nat, o: Backend.Oracle, x: HostTurn)
    requires Sound(l, c) && l.hosted.devices.Valid() && Writable(c.paths, x.writable) && AllPermitted(BatchDeeds(ready, batch, o, x))
    requires Backend.Reached(ready.cpu.ticks, ready.deadline) || !Scheduler.Executed(ready, batch, o).lifecycle.Running?
    ensures Clean(Lived(l, c, BatchDeeds(ready, batch, o, x)), c)
  {
    hide Sound, Done, Clean, Scheduler.Executed, InboxDeeds, GuestDeeds, Writable;
    if Backend.Reached(ready.cpu.ticks, ready.deadline) {
      EndsClean(l, c, [], x.writable);
      assert [] + [Flushes(x.writable)] == [Flushes(x.writable)];
    } else {
      var work := InboxDeeds(x.inbox) + GuestDeeds(x.guest);
      assert BatchDeeds(ready, batch, o, x) == work + [Flushes(x.writable)];
      assert forall i | 0 <= i < |work| :: BatchDeeds(ready, batch, o, x)[i] == work[i];
      EndsClean(l, c, work, x.writable);
    }
  }

  lemma BodyCleans(s: Scheduler.State, l: Life, c: Config, batch: nat, t: Scheduler.Turn, x: HostTurn)
    requires CleanUnlessRunning(s, l, c) && Sound(l, c) && HostWrites(c.paths, x)
    requires l.ticks == s.cpu.ticks && BodyFits(s, l, c, batch, t, x)
    ensures AllPermitted(BodyDeeds(s, batch, t, x))
    ensures CleanUnlessRunning(AfterCommands(s, batch, t), Lived(l, c, BodyDeeds(s, batch, t, x)), c)
  {
    BodyInStep(s, l, c, batch, t, x);
    hide Scheduler.Commanded, Scheduler.Executed, CommandDeeds, Done, BatchDeeds, DeliveryDeeds, Scheduler.DeliveredDue, Sound, Clean,
         AllTimeless, GuestFits, CommandFits;
    match s.lifecycle
    case Ended =>
    case Running =>
      var ready := Scheduler.DeliveredDue(s);
      if !Scheduler.RunningTurn(s, batch, t.oracle).lifecycle.Running? {
        Scheduler.DeliveryOnlyDelivers(s);
        DeliveryIsTimeless(s);
        TimelessKeepsTick(l, c, DeliveryDeeds(s));
        var delivered := Lived(l, c, DeliveryDeeds(s));
        LifeIsSound(l, c, DeliveryDeeds(s));
        BatchInStep(ready, delivered, c, batch, t.oracle, x);
        BatchCleans(ready, delivered, c, batch, t.oracle, x);
        LivedJoins(l, c, DeliveryDeeds(s), BatchDeeds(ready, batch, t.oracle, x));
      }
    case Paused =>
      if t.waited.Some? { CommandCleans(s, l, c, t.waited.value, x.waited); }
  }

  lemma TurnCleans(s: Scheduler.State, l: Life, c: Config, batch: nat, t: Scheduler.Turn, x: HostTurn)
    requires CleanUnlessRunning(s, l, c) && Sound(l, c) && HostWrites(c.paths, x)
    requires l.ticks == s.cpu.ticks && TurnFits(s, l, c, batch, t, x)
    ensures AllPermitted(TurnDeeds(s, batch, t, x))
    ensures CleanUnlessRunning(Scheduler.Step(s, batch, t), Lived(l, c, TurnDeeds(s, batch, t, x)), c)
  {
    hide Scheduler.CommandedAll, Scheduler.Commanded, Scheduler.RunningTurn, CommandsDeeds, BodyDeeds, CommandsFit, BodyFits, AllPermitted,
         Done, Sound, Clean;
    CommandsInStep(s, l, c, t.commands, x.commands);
    CommandsClean(s, l, c, t.commands, x.commands);
    var after := Scheduler.CommandedAll(s, t.commands);
    var life := Lived(l, c, CommandsDeeds(s, t.commands, x.commands));
    BodyCleans(after, life, c, batch, t, x);
    LivedJoins(l, c, CommandsDeeds(s, t.commands, x.commands), BodyDeeds(after, batch, t, x));
  }

  /** Over every run of the service in which host writes succeed: whenever the service does not
      run, nothing is dirty, and so each host file equals its attached medium, byte by byte. */
  lemma {:induction false} StoppedMeansPersisted(
    s: Scheduler.State, l: Life, c: Config, batch: nat, turns: seq<Scheduler.Turn>, xs: seq<HostTurn>)
    requires CleanUnlessRunning(s, l, c) && Sound(l, c) && l.ticks == s.cpu.ticks && |turns| == |xs|
    requires RunFits(s, l, c, batch, turns, xs) && forall i | 0 <= i < |xs| :: HostWrites(c.paths, xs[i])
    ensures AllPermitted(RunDeeds(s, batch, turns, xs))
    ensures var after := Lived(l, c, RunDeeds(s, batch, turns, xs));
      !Scheduler.Run(s, batch, turns).lifecycle.Running? ==>
        forall i: nat | i < Block.UNIT_COUNT && c.paths[i] ::
          UnitOf(after.hosted, i).dirty == {}
          && (UnitOf(after.hosted, i).media.Some? ==> after.hosted.files[i] == UnitOf(after.hosted, i).media.value)
    decreases |turns|
  {
    ServiceRunIsSound(s, l, c, batch, turns, xs);
    if turns != [] && !s.lifecycle.Ended? {
      assert HostWrites(c.paths, xs[0]);
      hide Scheduler.Step, TurnDeeds, TurnFits, AllPermitted, Done, Sound, Clean, HostWrites;
      var deeds, next := TurnDeeds(s, batch, turns[0], xs[0]), Scheduler.Step(s, batch, turns[0]);
      TurnInStep(s, l, c, batch, turns[0], xs[0]);
      TurnCleans(s, l, c, batch, turns[0], xs[0]);
      LifeIsSound(l, c, deeds);
      StoppedMeansPersisted(next, Lived(l, c, deeds), c, batch, turns[1..], xs[1..]);
      ServiceRunIsSound(next, Lived(l, c, deeds), c, batch, turns[1..], xs[1..]);
      LivedJoins(l, c, deeds, RunDeeds(next, batch, turns[1..], xs[1..]));
    } else {
      if !s.lifecycle.Running? { CleanFilesEqual(l, c); }
    }
  }

  lemma CleanFilesEqual(l: Life, c: Config)
    requires Sound(l, c) && l.hosted.devices.Valid() && Clean(l, c)
    ensures forall i: nat | i < Block.UNIT_COUNT && c.paths[i] ::
      UnitOf(l.hosted, i).media.Some? ==> l.hosted.files[i] == UnitOf(l.hosted, i).media.value
  {
    hide Settled;
    forall i: nat | i < Block.UNIT_COUNT && c.paths[i] && UnitOf(l.hosted, i).media.Some?
      ensures l.hosted.files[i] == UnitOf(l.hosted, i).media.value
    {
      WriteBack.CleanMeansEqual(UnitOf(l.hosted, i), l.hosted.files[i]);
    }
  }

  /** A freshly configured machine has nothing to flush, so every service starts in that state. */
  lemma StartIsClean(
    source: Hosted, c: Config, readable: Paths, startPaused: bool, deadline: Option<nat>, inputs: seq<Scheduler.Input>)
    requires source.devices.Valid() && Configured(source, c.paths, readable, c.writes).Some?
    ensures CleanUnlessRunning(Scheduler.Initial(startPaused, deadline, inputs), StartOf(source, c, readable), c)
  {
    hide Configured, Prefilled, Scheduler.Schedule;
    ConfiguredReloads(source, c.paths, readable, c.writes);
  }
}
