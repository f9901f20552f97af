/** Everything that happens to an emulated machine in its lifetime: machine actions, flushes
    and resets, in any order (crates/minemu-runtime/src/service.rs). */
module Lifetime {
  import opened Platform
  import opened Memory
  import opened Bus
  import opened MachineRuns
  import opened Emulation
  import Block
  import WriteBack

  datatype Deed = Acts(action: Action) | Flushes(writable: Paths) | Resets(answers: Answers)

  /** What the emulator is configured with: the units' host files and the RAM prefill. */
  datatype Config = Config(paths: Paths, writes: seq<(u32, seq<u8>)>)

  datatype Life = Life(hosted: Hosted, ticks: nat)

  predicate Permitted(deed: Deed) { deed.Acts? ==> Allowed(deed.action) && AttachesAddressable(deed.action) }

  ghost predicate AllPermitted(deeds: seq<Deed>) {
    forall i | 0 <= i < |deeds| :: Permitted(deeds[i])
  }

  /** The life after one deed. A machine that a reset replaces starts at tick 0. */
  ghost function Done(l: Life, c: Config, deed: Deed): (r: Life)
    requires l.hosted.devices.Valid() && Permitted(deed)
    ensures r.hosted.devices.Valid()
  {
    match deed
    case Acts(a) =>
      BlockEventsAreValid(l.ticks, a);
      var (devices, ticks) := Acted(l.hosted.devices, l.ticks, a);
      Life(Hosted(devices, WriteBack.Run(WorldOf(l.hosted.devices, l.hosted.files), BlockEvents(l.ticks, a)).host), ticks)
    case Flushes(writable) => l.(hosted := FlushedBoth(l.hosted, c.paths, writable).0)
    case Resets(answers) =>
      Life(Restarted(l.hosted, c.paths, c.writes, answers).0, if Replaces(l.hosted, c.paths, c.writes, answers) then 0 else l.ticks)
  }

  ghost function Lived(l: Life, c: Config, deeds: seq<Deed>): (r: Life)
    requires l.hosted.devices.Valid() && AllPermitted(deeds)
    ensures r.hosted.devices.Valid()
    decreases |deeds|
  {
    if deeds == [] then l else Lived(Done(l, c, deeds[0]), c, deeds[1..])
  }

  /** The machine is settled at its tick, and every unit with a host file agrees with it. */
  ghost predicate Sound(l: Life, c: Config) {
    Settled(l.hosted.devices, l.ticks) && AllAgree(l.hosted, c.paths)
  }

  lemma SettledIsValid(l: Life)
    requires Settled(l.hosted.devices, l.ticks)
    ensures l.hosted.devices.Valid()
  {}

  lemma ActIsSound(l: Life, c: Config, a: Action)
    requires Sound(l, c) && Permitted(Acts(a))
    ensures Sound(Done(l, c, Acts(a)), c)
  {
    var d, files := l.hosted.devices, l.hosted.files;
    var after := Done(l, c, Acts(a));
    ActedIsSettled(d, l.ticks, a);
    ActedIsBlockRun(d, l.ticks, a, files);
    hide Settled, Acted, WriteBack.Run, BlockEvents, WriteBack.UnitAgrees;
    forall i: nat | i < Block.UNIT_COUNT && c.paths[i]
      ensures WriteBack.UnitAgrees(UnitOf(after.hosted, i), after.hosted.files[i])
    {
      ActAgrees(d, l.ticks, a, files, i);
    }
  }

  lemma ActAgrees(d: Devices, ticks: nat, a: Action, files: Files, i: nat)
    requires d.Valid() && Permitted(Acts(a)) && i < Block.UNIT_COUNT && WriteBack.UnitAgrees(d.block.units[i], files[i])
    ensures WriteBack.ValidRun(BlockEvents(ticks, a))
    ensures WriteBack.UnitAgrees(Acted(d, ticks, a).0.block.units[i], WriteBack.Run(WorldOf(d, files), BlockEvents(ticks, a)).host[i])
  {
    BlockEventsAreValid(ticks, a);
    assert forall k | 0 <= k < |BlockEvents(ticks, a)| :: WriteBack.AttachesAddressable(BlockEvents(ticks, a)[k]);
    hide Acted, WriteBack.Run, BlockEvents, WriteBack.UnitAgrees;
    ActedIsBlockRun(d, ticks, a, files);
    WriteBack.RunAgrees(WorldOf(d, files), BlockEvents(ticks, a), i);
  }

  lemma ResetIsSound(l: Life, c: Config, answers: Answers)
    requires Sound(l, c)
    ensures Sound(Done(l, c, Resets(answers)), c)
  {
    var h := l.hosted;
    SettledIsValid(l);
    hide Settled, AllAgree, Replaces, Restarted, FlushedBoth, Prefilled;
    ResetAgrees(h, c.paths, c.writes, answers);
    if Replaces(h, c.paths, c.writes, answers) {
      ReplacedIsSettled(h, c.paths, c.writes, answers);
    } else {
      RestartedReloads(h, c.paths, c.writes, answers);
      FlushIsSettled(h, c.paths, answers.writable, l.ticks);
    }
  }

  lemma FlushIsSound(l: Life, c: Config, writable: Paths)
    requires Sound(l, c)
    ensures Sound(Done(l, c, Flushes(writable)), c)
  {
    SettledIsValid(l);
    hide Settled, AllAgree, FlushedBoth;
    FlushIsSettled(l.hosted, c.paths, writable, l.ticks);
    FlushAttemptsBoth(l.hosted, c.paths, writable);
  }

  /** Over any lifetime of machine actions, flushes and resets, whatever fails: the queue is
      true to the devices, the timer in phase, no request overdue, and every unit with a host
      file agrees with it on its clean sectors. */
  lemma {:induction false} LifeIsSound(l: Life, c: Config, deeds: seq<Deed>)
    requires Sound(l, c) && AllPermitted(deeds)
    ensures l.hosted.devices.Valid() && Sound(Lived(l, c, deeds), c)
    decreases |deeds|
  {
    SettledIsValid(l);
    if deeds != [] {
      assert Permitted(deeds[0]) && AllPermitted(deeds[1..]);
      hide Sound, Done, AllPermitted, Permitted;
      match deeds[0] {
        case Acts(a) => ActIsSound(l, c, a);
        case Flushes(writable) => FlushIsSound(l, c, writable);
        case Resets(answers) => ResetIsSound(l, c, answers);
      }
      LifeIsSound(Done(l, c, deeds[0]), c, deeds[1..]);
    }
  }

  /** A machine freshly configured from any source starts a sound life. */
  lemma StartIsSound(source: Hosted, c: Config, readable: Paths)
    requires source.devices.Valid() && Configured(source, c.paths, readable, c.writes).Some?
    requires FilesAddressable(source.files, c.paths)
    ensures Sound(Life(source.(devices := Configured(source, c.paths, readable, c.writes).value), 0), c)
  {
    hide Settled, AllAgree, Configured;
    ConfiguredIsSettled(source, c.paths, readable, c.writes);
    ConfiguredAgrees(source, c.paths, readable, c.writes);
  }
}
