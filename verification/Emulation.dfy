/** Flushing both units and resetting the machine without losing media
    (crates/minemu-runtime/src/service.rs, crates/minemu-core/src/machine.rs). */
module Emulation {
  import opened Platform
  import opened Bytes
  import opened Memory
  import opened Bus
  import opened MachineRuns
  import opened Registers
  import Block
  import Interrupts
  import Serial
  import Timer
  import WriteBack

  /** Which of the two units have a host file. */
  type Paths = p: seq<bool> | |p| == Block.UNIT_COUNT witness [false, false]
  type Files = f: seq<seq<u8>> | |f| == Block.UNIT_COUNT witness [[], []]

  // ---- Flushing ----

  /** The machine's devices and the host files. */
  datatype Hosted = Hosted(devices: Devices, files: Files)

  /** One pass of the flush loop, and whether it met no error. */
  function FlushedUnit(h: Hosted, paths: Paths, unit: u32, writable: Paths): (r: (Hosted, bool))
    requires h.devices.Valid() && unit < Block.UNIT_COUNT
    ensures r.0.devices.Valid()
  {
    if !paths[unit] then (h, true)
    else
      var (block, written, ok) := Block.Flushed(h.devices.block, unit, writable[unit]);
      (Hosted(Step(h.devices, BlockFlush(unit, writable[unit]), 0),
              if written.Some? then h.files[unit := written.value] else h.files), ok)
  }

  /** `flush`: both units are attempted, and the first error is reported. */
  function FlushedBoth(h: Hosted, paths: Paths, writable: Paths): (r: (Hosted, bool))
    requires h.devices.Valid()
    ensures r.0.devices.Valid()
  {
    var (first, ok0) := FlushedUnit(h, paths, 0, writable);
    var (second, ok1) := FlushedUnit(first, paths, 1, writable);
    (second, ok0 && ok1)
  }

  // ---- Resetting ----

  /** Every device in reset over those ROMs and zeroed RAM. */
  function CleanDevices(m: Mem): Devices {
    Devices(Interrupts.Controller({}, {}, [0, 64, 64, 128], None), [], Timer.RESET, Block.RESET,
            Serial.State([], [], false), Serial.State([], [], false), m.(ram := Zeros(RAM_SIZE)))
  }

  function AttachedMedia(d: Devices, unit: u32, media: Option<seq<u8>>): (r: Option<Devices>)
    requires d.Valid()
    ensures r.Some? ==> r.value.Valid()
  {
    if media.None? then Some(d)
    else if Block.Refused(Block.Attach(unit, media.value)) then None
    else Some(Step(d, BlockOp(Block.Attach(unit, media.value)), 0))
  }

  /** `reset_clone`: a clean machine with the same ROMs and media. */
  function ResetClone(d: Devices): (r: Option<Devices>)
    requires d.Valid()
    ensures r.Some? ==> r.value.Valid()
  {
    var first := AttachedMedia(CleanDevices(d.memory), 0, d.block.units[0].media);
    if first.None? then None else AttachedMedia(first.value, 1, d.block.units[1].media)
  }

  /** The host file of a unit as `fs::read` returns it; an unreadable one is an error. */
  function AttachedFile(d: Devices, unit: u32, files: Files, paths: Paths, readable: Paths): (r: Option<Devices>)
    requires d.Valid() && unit < Block.UNIT_COUNT
    ensures r.Some? ==> r.value.Valid()
  {
    if !paths[unit] then Some(d) else if !readable[unit] then None else AttachedMedia(d, unit, Some(files[unit]))
  }

  /** The configured RAM prefill. */
  function Prefilled(m: Mem, writes: seq<(u32, seq<u8>)>): (r: Option<Mem>)
    requires m.Valid()
    ensures r.Some? ==> r.value.Valid() && r.value.bootRom == m.bootRom && r.value.systemRom == m.systemRom
    decreases |writes|
  {
    if writes == [] then Some(m)
    else
      var next := WriteRange(m, writes[0].0, writes[0].1);
      if next.Err? then None else Prefilled(next.value, writes[1..])
  }

  /** `configured_machine`: a clone with the host files attached and RAM prefilled. */
  function Configured(h: Hosted, paths: Paths, readable: Paths, writes: seq<(u32, seq<u8>)>): (r: Option<Devices>)
    requires h.devices.Valid()
    ensures r.Some? ==> r.value.Valid()
  {
    var clone := ResetClone(h.devices);
    if clone.None? then None
    else
      var first := AttachedFile(clone.value, 0, h.files, paths, readable);
      if first.None? then None
      else
        var second := AttachedFile(first.value, 1, h.files, paths, readable);
        if second.None? then None
        else
          var memory := Prefilled(second.value.memory, writes);
          if memory.None? then None else Some(second.value.(memory := memory.value))
  }

  /** What the host and the engine answer during a reset. */
  datatype Answers = Answers(writable: Paths, readable: Paths, engineOk: bool, registersOk: bool)

  /** The part of `reset` after the flush, and whether it succeeded. Only a failing register
      write leaves the machine replaced by one that then counts as failed. */
  function Rebuilt(h: Hosted, paths: Paths, writes: seq<(u32, seq<u8>)>, answers: Answers): (r: (Hosted, bool))
    requires h.devices.Valid()
    ensures r.0.devices.Valid()
  {
    var clone := ResetClone(h.devices);
    if clone.None? then (h, false)
    else
      var machine := Configured(h.(devices := clone.value), paths, answers.readable, writes);
      if machine.None? || !answers.engineOk then (h, false)
      else (h.(devices := machine.value), answers.registersOk)
  }

  /** `reset`: a failing flush ends it before anything is rebuilt. */
  function Restarted(h: Hosted, paths: Paths, writes: seq<(u32, seq<u8>)>, answers: Answers): (r: (Hosted, bool))
    requires h.devices.Valid()
    ensures r.0.devices.Valid()
  {
    var (flushed, ok) := FlushedBoth(h, paths, answers.writable);
    if ok then Rebuilt(flushed, paths, writes, answers) else (flushed, false)
  }

  // ---- The emulator as it runs ----

  method FlushUnit(bus: MmioBus, unit: u32, writable: bool) returns (written: Option<seq<u8>>, ok: bool)
    requires bus.Valid()
    modifies bus.Footprint()
    ensures bus.Valid() && bus.Value() == Step(old(bus.Value()), BlockFlush(unit, writable), 0)
    ensures (written, ok) == (Block.Flushed(old(bus.Value()).block, unit, writable).1, Block.Flushed(old(bus.Value()).block, unit, writable).2)
  {
    hide Block.Flushed, Block.FlushFails;
    written, ok := bus.block.Flush(unit, writable);
  }

  method AttachUnit(bus: MmioBus, unit: u32, media: seq<u8>) returns (ok: bool)
    requires bus.Valid()
    modifies bus.Footprint()
    ensures bus.Valid() && ok == !Block.Refused(Block.Attach(unit, media))
    ensures bus.Value() == Step(old(bus.Value()), BlockOp(Block.Attach(unit, media)), 0)
  {
    RefusedChangesNothing(bus.block.Value(), Block.Attach(unit, media), 0);
    hide Block.Updated, Block.Refused;
    ok := bus.block.Update(Block.Attach(unit, media), 0);
  }

  lemma ZeroedRam(memory: PhysicalMemory)
    requires memory.Valid() && forall i | 0 <= i < RAM_SIZE :: memory.ram[i] == 0
    ensures memory.ram[..] == Zeros(RAM_SIZE)
  {
    hide Zeros;
  }

  /** A unit's media, if any, attached to a fresh machine. */
  method AttachMedia(bus: MmioBus, unit: u32, media: Option<seq<u8>>) returns (ok: bool)
    requires bus.Valid()
    modifies bus.Footprint()
    ensures bus.Valid() && ok == AttachedMedia(old(bus.Value()), unit, media).Some?
    ensures ok ==> bus.Value() == AttachedMedia(old(bus.Value()), unit, media).value
  {
    hide Step, Block.Refused;
    if media.None? { return true; }
    ok := AttachUnit(bus, unit, media.value);
  }

  method CleanBus(bus: MmioBus) returns (clean: MmioBus)
    requires bus.Valid()
    ensures fresh(clean) && fresh(clean.Footprint()) && clean.Valid() && clean.Value() == CleanDevices(bus.Value().memory)
  {
    hide Zeros;
    var memory := new PhysicalMemory(bus.memory.bootRom, bus.memory.systemRom);
    assert memory.bootRom == bus.memory.bootRom && memory.systemRom == bus.memory.systemRom;
    ZeroedRam(memory);
    clean := new MmioBus(memory);
  }

  /** `reset_clone`. */
  method CloneBus(bus: MmioBus) returns (r: Option<MmioBus>)
    requires bus.Valid()
    ensures r.None? <==> ResetClone(old(bus.Value())).None?
    ensures r.Some? ==> fresh(r.value) && fresh(r.value.Footprint()) && r.value.Valid()
    ensures r.Some? ==> ResetClone(old(bus.Value())) == Some(r.value.Value())
  {
    var units := bus.block.units;
    assert units == bus.Value().block.units;
    hide CleanDevices, AttachedMedia, MmioBus.Value;
    var clone := CleanBus(bus);
    var ok := AttachMedia(clone, 0, units[0].media);
    if !ok { return None; }
    ok := AttachMedia(clone, 1, units[1].media);
    if !ok { return None; }
    return Some(clone);
  }

  method AttachFile(bus: MmioBus, unit: u32, files: Files, paths: Paths, readable: Paths) returns (ok: bool)
    requires bus.Valid() && unit < Block.UNIT_COUNT
    modifies bus.Footprint()
    ensures bus.Valid() && ok == AttachedFile(old(bus.Value()), unit, files, paths, readable).Some?
    ensures ok ==> bus.Value() == AttachedFile(old(bus.Value()), unit, files, paths, readable).value
  {
    hide AttachedMedia, MmioBus.Value;
    if !paths[unit] { return true; }
    if !readable[unit] { return false; }
    ok := AttachMedia(bus, unit, Some(files[unit]));
  }

  /** The loop over the configured RAM writes. */
  method PrefillRam(bus: MmioBus, writes: seq<(u32, seq<u8>)>) returns (ok: bool)
    requires bus.Valid()
    modifies bus.memory.ram
    ensures bus.Valid() && ok == Prefilled(old(bus.memory.Contents()), writes).Some?
    ensures ok ==> bus.Value() == old(bus.Value()).(memory := Prefilled(old(bus.memory.Contents()), writes).value)
  {
    hide WriteRange;
    ghost var before := bus.memory.Contents();
    for i := 0 to |writes|
      invariant bus.Valid() && bus.Value() == old(bus.Value()).(memory := bus.memory.Contents())
      invariant Prefilled(bus.memory.Contents(), writes[i..]) == Prefilled(before, writes)
    {
      var stored := bus.memory.Store(writes[i].0, writes[i].1);
      assert writes[i..][1..] == writes[i + 1..];
      if stored.Err? { return false; }
    }
    return true;
  }

  /** `configured_machine`. */
  method ConfiguredBus(source: MmioBus, files: Files, paths: Paths, readable: Paths, writes: seq<(u32, seq<u8>)>)
    returns (r: Option<MmioBus>)
    requires source.Valid()
    ensures r.None? <==> Configured(Hosted(old(source.Value()), files), paths, readable, writes).None?
    ensures r.Some? ==> fresh(r.value) && fresh(r.value.Footprint()) && r.value.Valid()
    ensures r.Some? ==> Configured(Hosted(old(source.Value()), files), paths, readable, writes) == Some(r.value.Value())
  {
    hide ResetClone, AttachedFile, Prefilled, MmioBus.Value;
    var clone := CloneBus(source);
    if clone.None? { return None; }
    var bus := clone.value;
    var ok := AttachFile(bus, 0, files, paths, readable);
    if !ok { return None; }
    ok := AttachFile(bus, 1, files, paths, readable);
    if !ok { return None; }
    MemoryOf(bus);
    ok := PrefillRam(bus, writes);
    if !ok { return None; }
    return Some(bus);
  }

  lemma MemoryOf(bus: MmioBus)
    requires bus.Valid()
    ensures bus.Value().memory == bus.memory.Contents()
  {}

  twostate lemma ValueUntouched(bus: MmioBus)
    requires old(bus.Valid()) && unchanged(bus.queue, bus.interrupts, bus.systick, bus.block, bus.uart0, bus.uart1, bus.memory.ram)
    ensures bus.Valid() && bus.Value() == old(bus.Value())
  {}

  /** The emulator: the machine and, by their contents, the host files of its units. */
  class Emulator {
    var bus: MmioBus
    var files: Files
    const paths: Paths
    const ramWrites: seq<(u32, seq<u8>)>

    ghost predicate Valid()
      reads this, bus, bus.interrupts, bus.block
    {
      bus.Valid()
    }

    ghost function Value(): (h: Hosted)
      requires Valid()
      reads this, bus, bus.interrupts, bus.block, bus.Footprint()
      ensures h.devices.Valid()
    {
      Hosted(bus.Value(), files)
    }

    constructor (machine: MmioBus, hostFiles: Files, configured: Paths, writes: seq<(u32, seq<u8>)>)
      requires machine.Valid()
      ensures Valid() && bus == machine && files == hostFiles && paths == configured && ramWrites == writes
    {
      bus, files, paths, ramWrites := machine, hostFiles, configured, writes;
    }

    /** One pass of the flush loop: units without a host file are skipped. */
    method FlushFile(unit: u32, writable: Paths) returns (ok: bool)
      requires Valid() && unit < Block.UNIT_COUNT
      modifies this`files, bus.Footprint()
      ensures Valid() && (Value(), ok) == FlushedUnit(old(Value()), paths, unit, writable)
    {
      if !paths[unit] { return true; }
      hide Step, Block.Flushed, MmioBus.Value;
      BlockOf(bus);
      var written;
      written, ok := FlushUnit(bus, unit, writable[unit]);
      if written.Some? { files := files[unit := written.value]; }
    }

    /** `flush`: an error of one unit does not keep the loop from the other. */
    method Flush(writable: Paths) returns (ok: bool)
      requires Valid()
      modifies this`files, bus.Footprint()
      ensures Valid() && (Value(), ok) == FlushedBoth(old(Value()), paths, writable)
    {
      hide FlushedUnit, Value;
      ok := true;
      for unit := 0 to Block.UNIT_COUNT
        invariant Valid()
        invariant unit == 0 ==> ok && Value() == old(Value())
        invariant unit == 1 ==> (Value(), ok) == FlushedUnit(old(Value()), paths, 0, writable)
        invariant unit == 2 ==> (Value(), ok) == FlushedBoth(old(Value()), paths, writable)
      {
        var flushed := FlushFile(unit, writable);
        ok := ok && flushed;
      }
    }

    /** Nothing is replaced before the new machine has been configured. */
    method Rebuild(answers: Answers) returns (ok: bool)
      requires Valid()
      modifies this`bus
      ensures Valid() && (Value(), ok) == Rebuilt(old(Value()), paths, ramWrites, answers)
    {
      hide ResetClone, Configured, MmioBus.Value;
      var clone := CloneBus(bus);
      ValueUntouched(bus);
      if clone.None? { return false; }
      var machine := ConfiguredBus(clone.value, files, paths, answers.readable, ramWrites);
      ValueUntouched(bus);
      if machine.None? || !answers.engineOk { return false; }
      bus := machine.value;
      return answers.registersOk;
    }

    /** `reset`. */
    method Reset(answers: Answers) returns (ok: bool)
      requires Valid()
      modifies this`bus, this`files, bus.Footprint()
      ensures Valid() && (Value(), ok) == Restarted(old(Value()), paths, ramWrites, answers)
    {
      hide FlushedBoth, Rebuilt, Value;
      ok := Flush(answers.writable);
      if ok { ok := Rebuild(answers); }
    }
  }

  lemma BlockOf(bus: MmioBus)
    requires bus.Valid()
    ensures bus.Value().block == bus.block.Value()
  {}

  // ---- What flushing and resetting keep ----

  function UnitOf(h: Hosted, i: nat): Block.Unit
    requires h.devices.Valid() && i < Block.UNIT_COUNT
  {
    h.devices.block.units[i]
  }

  /** The host write of unit `i` is attempted and fails. */
  predicate WriteFails(h: Hosted, paths: Paths, writable: Paths, i: nat)
    requires h.devices.Valid() && i < Block.UNIT_COUNT
  {
    paths[i] && Block.FlushFails(h.devices.block, i, writable[i])
  }

  /** Unit `i` after a flush: written out with nothing dirty, or exactly as it was. */
  ghost predicate FlushedOrKept(h: Hosted, after: Hosted, written: bool, i: nat)
    requires h.devices.Valid() && after.devices.Valid() && i < Block.UNIT_COUNT
  {
    if written then
      && UnitOf(after, i) == UnitOf(h, i).(dirty := {})
      && (UnitOf(h, i).media.Some? ==> after.files[i] == UnitOf(h, i).media.value)
    else UnitOf(after, i) == UnitOf(h, i) && after.files[i] == h.files[i]
  }

  /** Every unit with a host file agrees with it; a unit without one owes nothing. */
  ghost predicate AllAgree(h: Hosted, paths: Paths)
    requires h.devices.Valid()
  {
    forall i: nat | i < Block.UNIT_COUNT && paths[i] :: WriteBack.UnitAgrees(UnitOf(h, i), h.files[i])
  }

  lemma FlushOneUnit(h: Hosted, paths: Paths, unit: u32, writable: Paths)
    requires h.devices.Valid() && unit < Block.UNIT_COUNT && AllAgree(h, paths)
    ensures var (after, ok) := FlushedUnit(h, paths, unit, writable);
      && AllAgree(after, paths) && ok == !WriteFails(h, paths, writable, unit)
      && FlushedOrKept(h, after, paths[unit] && ok, unit)
      && UnitOf(after, 1 - unit) == UnitOf(h, 1 - unit) && after.files[1 - unit] == h.files[1 - unit]
  {
    if paths[unit] {
      var w, e := WorldOf(h.devices, h.files), WriteBack.Flush(unit, writable[unit]);
      assert WriteBack.UnitAgrees(UnitOf(h, unit), h.files[unit]);
      WriteBack.StepAgrees(w, e, unit);
      WriteBack.OtherUnitIsUntouched(w, e, 1 - unit);
      HostStepBlock(h.devices, 0, BlockFlush(unit, writable[unit]));
      if Block.Flushed(h.devices.block, unit, writable[unit]).2 {
        WriteBack.SuccessfulFlushPersists(w, unit, writable[unit]);
      } else {
        WriteBack.FailedFlushKeepsDirty(w, unit, writable[unit]);
      }
      hide WriteBack.UnitAgrees, Step;
    }
  }

  /** A flush attempts both units. Each one with a host file is written out unless its own
      write fails, in which case it keeps its dirty set; an error of either is reported. */
  lemma FlushAttemptsBoth(h: Hosted, paths: Paths, writable: Paths)
    requires h.devices.Valid() && AllAgree(h, paths)
    ensures var (after, ok) := FlushedBoth(h, paths, writable);
      && AllAgree(after, paths) && ok == (!WriteFails(h, paths, writable, 0) && !WriteFails(h, paths, writable, 1))
      && FlushedOrKept(h, after, paths[0] && !WriteFails(h, paths, writable, 0), 0)
      && FlushedOrKept(h, after, paths[1] && !WriteFails(h, paths, writable, 1), 1)
  {
    hide FlushedUnit, AllAgree;
    FlushOneUnit(h, paths, 0, writable);
    FlushOneUnit(FlushedUnit(h, paths, 0, writable).0, paths, 1, writable);
  }

  lemma AttachedBlock(d: Devices, unit: u32, media: Option<seq<u8>>)
    requires d.Valid() && unit < Block.UNIT_COUNT && AttachedMedia(d, unit, media).Some?
    ensures var after := AttachedMedia(d, unit, media).value;
      && after == d.(block := after.block, queue := after.queue)
      && after.block == d.block.(units :=
           if media.Some? then d.block.units[unit := Block.Unit(media, {})] else d.block.units)
  {}

  lemma CloneKeepsMedia(d: Devices)
    requires d.Valid() && ResetClone(d).Some?
    ensures var after := ResetClone(d).value;
      && after == CleanDevices(d.memory).(block := after.block, queue := after.queue)
      && after.block == Block.RESET.(units := [Block.Unit(d.block.units[0].media, {}), Block.Unit(d.block.units[1].media, {})])
  {
    AttachedBlock(CleanDevices(d.memory), 0, d.block.units[0].media);
    AttachedBlock(AttachedMedia(CleanDevices(d.memory), 0, d.block.units[0].media).value, 1, d.block.units[1].media);
    hide AttachedMedia, Zeros;
  }

  /** What a unit holds in the machine that a reset configures: its host file, or its media. */
  function Reloaded(h: Hosted, paths: Paths, i: nat): Block.Unit
    requires h.devices.Valid() && i < Block.UNIT_COUNT
  {
    Block.Unit(if paths[i] then Some(h.files[i]) else UnitOf(h, i).media, {})
  }

  lemma ConfiguredReloads(h: Hosted, paths: Paths, readable: Paths, writes: seq<(u32, seq<u8>)>)
    requires h.devices.Valid() && Configured(h, paths, readable, writes).Some?
    ensures var after := Configured(h, paths, readable, writes).value;
      && after.block == Block.RESET.(units := [Reloaded(h, paths, 0), Reloaded(h, paths, 1)])
      && after.memory.bootRom == h.devices.memory.bootRom && after.memory.systemRom == h.devices.memory.systemRom
      && Prefilled(CleanDevices(h.devices.memory).memory, writes) == Some(after.memory)
      && after == CleanDevices(h.devices.memory).(block := after.block, queue := after.queue, memory := after.memory)
  {
    CloneKeepsMedia(h.devices);
    var clone := ResetClone(h.devices).value;
    var first := AttachedFile(clone, 0, h.files, paths, readable).value;
    if paths[0] { AttachedBlock(clone, 0, Some(h.files[0])); }
    if paths[1] { AttachedBlock(first, 1, Some(h.files[1])); }
    hide AttachedMedia, ResetClone, Zeros, Prefilled;
  }

  /** Whether a reset gets as far as replacing the machine. */
  predicate Replaces(h: Hosted, paths: Paths, writes: seq<(u32, seq<u8>)>, answers: Answers)
    requires h.devices.Valid()
  {
    var (flushed, ok) := FlushedBoth(h, paths, answers.writable);
    var clone := ResetClone(flushed.devices);
    && ok && clone.Some? && answers.engineOk
    && Configured(flushed.(devices := clone.value), paths, answers.readable, writes).Some?
  }

  /** Unit `i` in the replaced machine: its host file, or the media it had. */
  lemma RestartedReloads(h: Hosted, paths: Paths, writes: seq<(u32, seq<u8>)>, answers: Answers)
    requires h.devices.Valid()
    ensures var (flushed, ok) := FlushedBoth(h, paths, answers.writable);
      var after := Restarted(h, paths, writes, answers).0;
      && after.files == flushed.files
      && (Replaces(h, paths, writes, answers) ==>
            && after.devices.block == Block.RESET.(units := [Reloaded(flushed, paths, 0), Reloaded(flushed, paths, 1)])
            && Prefilled(CleanDevices(flushed.devices.memory).memory, writes) == Some(after.devices.memory)
            && after.devices == CleanDevices(flushed.devices.memory)
                 .(block := after.devices.block, queue := after.devices.queue, memory := after.devices.memory))
      && (!Replaces(h, paths, writes, answers) ==> after == flushed && !Restarted(h, paths, writes, answers).1)
  {
    hide FlushedBoth;
    var flushed := FlushedBoth(h, paths, answers.writable).0;
    if Replaces(h, paths, writes, answers) {
      CloneKeepsMedia(flushed.devices);
      ConfiguredReloads(flushed.(devices := ResetClone(flushed.devices).value), paths, answers.readable, writes);
    }
    hide ResetClone, Configured, Prefilled, Zeros;
  }

  /** Whatever a reset meets on its way, media bytes that are attached stay attached and
      unchanged. */
  lemma ResetKeepsMedia(h: Hosted, paths: Paths, writes: seq<(u32, seq<u8>)>, answers: Answers, i: nat)
    requires h.devices.Valid() && AllAgree(h, paths) && i < Block.UNIT_COUNT && UnitOf(h, i).media.Some?
    ensures UnitOf(Restarted(h, paths, writes, answers).0, i).media == UnitOf(h, i).media
  {
    hide FlushedBoth, Restarted, Replaces, AllAgree, Prefilled, Zeros;
    FlushAttemptsBoth(h, paths, answers.writable);
    RestartedReloads(h, paths, writes, answers);
    if Replaces(h, paths, writes, answers) { ReplacingNeedsTheFlush(h, paths, writes, answers); }
  }

  lemma ReplacingNeedsTheFlush(h: Hosted, paths: Paths, writes: seq<(u32, seq<u8>)>, answers: Answers)
    requires h.devices.Valid() && Replaces(h, paths, writes, answers)
    ensures FlushedBoth(h, paths, answers.writable).1
  {
    hide FlushedBoth, Configured;
  }

  lemma AttachedFileIsValid(d: Devices, unit: u32, files: Files, paths: Paths, readable: Paths)
    requires d.Valid() && unit < Block.UNIT_COUNT && paths[unit] && AttachedFile(d, unit, files, paths, readable).Some?
    ensures Block.ValidMedia(files[unit])
  {}

  lemma ConfiguredFilesAreValid(h: Hosted, paths: Paths, readable: Paths, writes: seq<(u32, seq<u8>)>, i: nat)
    requires h.devices.Valid() && Configured(h, paths, readable, writes).Some? && i < Block.UNIT_COUNT && paths[i]
    ensures Block.ValidMedia(h.files[i])
  {
    hide AttachedFile, ResetClone, Prefilled, Block.ValidMedia;
    var clone := ResetClone(h.devices).value;
    if i == 0 {
      AttachedFileIsValid(clone, 0, h.files, paths, readable);
    } else {
      AttachedFileIsValid(AttachedFile(clone, 0, h.files, paths, readable).value, 1, h.files, paths, readable);
    }
  }

  lemma ReplacedFilesAreValid(h: Hosted, paths: Paths, writes: seq<(u32, seq<u8>)>, answers: Answers, i: nat)
    requires h.devices.Valid() && Replaces(h, paths, writes, answers) && i < Block.UNIT_COUNT && paths[i]
    ensures Block.ValidMedia(FlushedBoth(h, paths, answers.writable).0.files[i])
  {
    hide FlushedBoth, Configured, ResetClone, Block.ValidMedia;
    var flushed := FlushedBoth(h, paths, answers.writable).0;
    ConfiguredFilesAreValid(flushed.(devices := ResetClone(flushed.devices).value), paths, answers.readable, writes, i);
  }

  lemma FileIsAddressable(u: Block.Unit, host: seq<u8>)
    requires WriteBack.UnitAgrees(u, host)
    ensures WriteBack.Addressable(host)
  {}

  lemma ReloadedAgrees(u: Block.Unit, host: seq<u8>)
    requires WriteBack.Addressable(host) && Block.ValidMedia(host) && u == Block.Unit(Some(host), {})
    ensures WriteBack.UnitAgrees(u, host)
  {}

  /** After a reset, whatever its outcome, every unit with a host file agrees with it: no dirty
      sector is discarded. */
  lemma ResetAgrees(h: Hosted, paths: Paths, writes: seq<(u32, seq<u8>)>, answers: Answers)
    requires h.devices.Valid() && AllAgree(h, paths)
    ensures AllAgree(Restarted(h, paths, writes, answers).0, paths)
  {
    hide FlushedBoth, Restarted, Replaces, Prefilled, Zeros, WriteBack.UnitAgrees;
    FlushAttemptsBoth(h, paths, answers.writable);
    RestartedReloads(h, paths, writes, answers);
    var flushed, after := FlushedBoth(h, paths, answers.writable).0, Restarted(h, paths, writes, answers).0;
    if Replaces(h, paths, writes, answers) {
      forall i: nat | i < Block.UNIT_COUNT && paths[i] ensures WriteBack.UnitAgrees(UnitOf(after, i), after.files[i]) {
        FileIsAddressable(UnitOf(flushed, i), flushed.files[i]);
        ReplacedFilesAreValid(h, paths, writes, answers, i);
        ReloadedAgrees(UnitOf(after, i), after.files[i]);
      }
    }
  }

  /** Host files of fewer than 2^32 sectors. */
  predicate FilesAddressable(files: Files, paths: Paths) {
    (paths[0] ==> WriteBack.Addressable(files[0])) && (paths[1] ==> WriteBack.Addressable(files[1]))
  }

  /** A machine configured from any source agrees with its host files from the start. */
  lemma ConfiguredAgrees(h: Hosted, paths: Paths, readable: Paths, writes: seq<(u32, seq<u8>)>)
    requires h.devices.Valid() && Configured(h, paths, readable, writes).Some? && FilesAddressable(h.files, paths)
    ensures AllAgree(h.(devices := Configured(h, paths, readable, writes).value), paths)
  {
    hide Configured, WriteBack.UnitAgrees, Prefilled, Zeros;
    ConfiguredReloads(h, paths, readable, writes);
    forall i: nat | i < Block.UNIT_COUNT && paths[i]
      ensures WriteBack.UnitAgrees(Configured(h, paths, readable, writes).value.block.units[i], h.files[i])
    {
      ConfiguredFilesAreValid(h, paths, readable, writes, i);
      ReloadedAgrees(Configured(h, paths, readable, writes).value.block.units[i], h.files[i]);
    }
  }

  /** What a prefill puts at RAM offset `x`. */
  function PrefillAt(x: nat): ((u32, seq<u8>)) -> Option<u8> {
    (w: (u32, seq<u8>)) => if 0 <= 0x4000_0000 + x - w.0 < |w.1| then Some(w.1[0x4000_0000 + x - w.0]) else None
  }

  /** The prefill succeeds exactly when every write lies in RAM, and then each byte of RAM is what
      the last write that covers it says. */
  lemma {:induction false} PrefillHoldsLatest(m: Mem, writes: seq<(u32, seq<u8>)>, x: nat)
    requires m.Valid() && x < RAM_SIZE
    ensures Prefilled(m, writes).Some? <==>
      forall i | 0 <= i < |writes| :: 0x4000_0000 <= writes[i].0 < 0x4400_0000 && writes[i].0 + |writes[i].1| <= 0x4400_0000
    ensures Prefilled(m, writes).Some? ==> Prefilled(m, writes).value.ram[x] == Latest(writes, PrefillAt(x), m.ram[x])
    decreases |writes|
  {
    if writes != [] {
      var next := WriteRange(m, writes[0].0, writes[0].1);
      WriteMap(m, writes[0].0, writes[0].1);
      LatestFromFront(writes, PrefillAt(x), m.ram[x]);
      hide WriteRange, Latest, RegionOf;
      if next.Ok? {
        PrefillHoldsLatest(next.value, writes[1..], x);
        assert forall i | 1 <= i < |writes| :: writes[1..][i - 1] == writes[i];
      }
    }
  }

  // ---- When a reset succeeds, and what it resets ----

  /** Whole sectors, at least one. */
  predicate IsMedia(bytes: seq<u8>) { 0 < |bytes| && |bytes| % 512 == 0 }

  predicate UnitsHoldMedia(d: Devices)
    requires d.Valid()
  {
    && (d.block.units[0].media.Some? ==> IsMedia(d.block.units[0].media.value))
    && (d.block.units[1].media.Some? ==> IsMedia(d.block.units[1].media.value))
  }

  /** Every write of the prefill lies in RAM. */
  predicate WritesInRam(writes: seq<(u32, seq<u8>)>) {
    forall i | 0 <= i < |writes| :: 0x4000_0000 <= writes[i].0 < 0x4400_0000 && writes[i].0 + |writes[i].1| <= 0x4400_0000
  }

  /** Each configured host file can be read and holds a medium. */
  predicate FilesHoldMedia(files: Files, paths: Paths, readable: Paths) {
    (paths[0] ==> readable[0] && IsMedia(files[0])) && (paths[1] ==> readable[1] && IsMedia(files[1]))
  }

  lemma CloneSucceedsExactly(d: Devices)
    requires d.Valid()
    ensures ResetClone(d).Some? <==> UnitsHoldMedia(d)
    ensures ResetClone(d).Some? ==> UnitsHoldMedia(ResetClone(d).value)
  {
    if ResetClone(d).Some? { CloneKeepsMedia(d); }
    hide CleanDevices, Step;
  }

  lemma ConfiguredSucceedsExactly(h: Hosted, paths: Paths, readable: Paths, writes: seq<(u32, seq<u8>)>)
    requires h.devices.Valid() && UnitsHoldMedia(h.devices)
    ensures Configured(h, paths, readable, writes).Some? <==> FilesHoldMedia(h.files, paths, readable) && WritesInRam(writes)
  {
    CloneSucceedsExactly(h.devices);
    var clone := ResetClone(h.devices).value;
    hide ResetClone, Step;
    var first := AttachedFile(clone, 0, h.files, paths, readable);
    if first.Some? {
      var second := AttachedFile(first.value, 1, h.files, paths, readable);
      if second.Some? { PrefillHoldsLatest(second.value.memory, writes, 0); }
    }
    hide Prefilled;
  }

  lemma FlushKeepsMedia(h: Hosted, paths: Paths, writable: Paths)
    requires h.devices.Valid() && AllAgree(h, paths)
    ensures UnitsHoldMedia(FlushedBoth(h, paths, writable).0.devices) <==> UnitsHoldMedia(h.devices)
  {
    FlushAttemptsBoth(h, paths, writable);
    hide AllAgree, FlushedBoth, WriteFails, IsMedia;
  }

  /** A reset succeeds exactly when no host write fails, every medium and every configured host
      file holds whole sectors, the files can be read, the prefill lies in RAM and the engine
      accepts the new machine and its registers. */
  lemma ResetSucceedsExactly(h: Hosted, paths: Paths, writes: seq<(u32, seq<u8>)>, answers: Answers)
    requires h.devices.Valid() && AllAgree(h, paths)
    ensures Restarted(h, paths, writes, answers).1 <==>
      && !WriteFails(h, paths, answers.writable, 0) && !WriteFails(h, paths, answers.writable, 1)
      && UnitsHoldMedia(h.devices) && FilesHoldMedia(FlushedBoth(h, paths, answers.writable).0.files, paths, answers.readable)
      && WritesInRam(writes) && answers.engineOk && answers.registersOk
  {
    FlushAttemptsBoth(h, paths, answers.writable);
    var flushed := FlushedBoth(h, paths, answers.writable).0;
    FlushKeepsMedia(h, paths, answers.writable);
    CloneSucceedsExactly(flushed.devices);
    if UnitsHoldMedia(flushed.devices) {
      ConfiguredSucceedsExactly(flushed.(devices := ResetClone(flushed.devices).value), paths, answers.readable, writes);
    }
    hide FlushedBoth, ResetClone, Configured, AllAgree, WriteFails, UnitsHoldMedia, FilesHoldMedia, WritesInRam;
  }

  /** The reset state of every device, as tabulated. */
  lemma ResetValues(m: Mem)
    ensures var d := CleanDevices(m);
      && d.controller.pending == {} && d.controller.enabled == {} && d.controller.claim.None? && d.controller.priorities == [0, 64, 64, 128]
      && d.timer.period == 0 && !d.timer.enabled && !d.timer.periodic && !d.timer.irqEnabled && !d.timer.pending && d.timer.deadline.None?
      && d.block.lba == d.block.sectorCount == d.block.dmaAddress == d.block.unit == 0 && !d.block.irqEnabled && !d.block.complete
      && d.block.error.NoError? && d.block.active.None? && d.block.units[0].dirty == d.block.units[1].dirty == {}
      && d.uart0.rx == d.uart0.tx == d.uart1.rx == d.uart1.tx == [] && !d.uart0.irqEnabled && !d.uart1.irqEnabled
      && d.memory.bootRom == m.bootRom && d.memory.systemRom == m.systemRom
      && |d.memory.ram| == 0x0400_0000 && forall x | 0 <= x < 0x0400_0000 :: d.memory.ram[x] == 0
  {}

  // ---- A fresh machine is settled ----

  lemma CleanIsSettled(m: Mem)
    requires m.Valid()
    ensures Settled(CleanDevices(m), 0)
  {
    hide Zeros;
    ResetIsCoherent(Interrupts.Controller({}, {}, [0, 64, 64, 128], None), m.(ram := Zeros(RAM_SIZE)));
  }

  lemma AttachedIsSettled(d: Devices, unit: u32, media: Option<seq<u8>>)
    requires Settled(d, 0) && AttachedMedia(d, unit, media).Some?
    ensures Settled(AttachedMedia(d, unit, media).value, 0)
  {
    hide Settled, Step;
    if media.Some? { OpIsSettled(d, 0, BlockOp(Block.Attach(unit, media.value))); }
  }

  lemma CloneIsSettled(d: Devices)
    requires d.Valid() && ResetClone(d).Some?
    ensures Settled(ResetClone(d).value, 0)
  {
    CleanIsSettled(d.memory);
    hide Settled, AttachedMedia, CleanDevices;
    AttachedIsSettled(CleanDevices(d.memory), 0, d.block.units[0].media);
    AttachedIsSettled(AttachedMedia(CleanDevices(d.memory), 0, d.block.units[0].media).value, 1, d.block.units[1].media);
  }

  lemma FileAttachedIsSettled(d: Devices, unit: u32, files: Files, paths: Paths, readable: Paths)
    requires Settled(d, 0) && unit < Block.UNIT_COUNT && AttachedFile(d, unit, files, paths, readable).Some?
    ensures Settled(AttachedFile(d, unit, files, paths, readable).value, 0)
  {
    if paths[unit] { AttachedIsSettled(d, unit, Some(files[unit])); }
    hide Settled, AttachedMedia;
  }

  lemma NewMemoryIsSettled(d: Devices, m: Mem)
    requires Settled(d, 0) && m.Valid()
    ensures Settled(d.(memory := m), 0)
  {
    assert d.(memory := m).Replayed() == d.Replayed();
  }

  /** A configured machine is settled at tick 0, whatever it was configured from. */
  lemma ConfiguredIsSettled(h: Hosted, paths: Paths, readable: Paths, writes: seq<(u32, seq<u8>)>)
    requires h.devices.Valid() && Configured(h, paths, readable, writes).Some?
    ensures Settled(Configured(h, paths, readable, writes).value, 0)
  {
    hide Settled, ResetClone, AttachedFile, Prefilled;
    CloneIsSettled(h.devices);
    var clone := ResetClone(h.devices).value;
    FileAttachedIsSettled(clone, 0, h.files, paths, readable);
    var first := AttachedFile(clone, 0, h.files, paths, readable).value;
    FileAttachedIsSettled(first, 1, h.files, paths, readable);
    var second := AttachedFile(first, 1, h.files, paths, readable).value;
    NewMemoryIsSettled(second, Prefilled(second.memory, writes).value);
  }

  /** So is every machine that replaces another on a reset. */
  lemma ReplacedIsSettled(h: Hosted, paths: Paths, writes: seq<(u32, seq<u8>)>, answers: Answers)
    requires h.devices.Valid() && Replaces(h, paths, writes, answers)
    ensures Settled(Restarted(h, paths, writes, answers).0.devices, 0)
  {
    hide FlushedBoth, Settled, ResetClone, Configured;
    var flushed := FlushedBoth(h, paths, answers.writable).0;
    ConfiguredIsSettled(flushed.(devices := ResetClone(flushed.devices).value), paths, answers.readable, writes);
  }

  lemma FlushedMemory(h: Hosted, paths: Paths, writable: Paths)
    requires h.devices.Valid()
    ensures FlushedBoth(h, paths, writable).0.devices.memory == h.devices.memory
  {
    hide Block.Flushed;
  }

  /** A reset that succeeds has met no failed write. It leaves every device in reset over the
      same ROMs and the prefilled zero RAM, with no dirty sector, and settled: the queue is true
      to the devices, the timer in phase and no request overdue. */
  lemma SuccessfulResetIsClean(h: Hosted, paths: Paths, writes: seq<(u32, seq<u8>)>, answers: Answers)
    requires h.devices.Valid() && AllAgree(h, paths) && Restarted(h, paths, writes, answers).1
    ensures !WriteFails(h, paths, answers.writable, 0) && !WriteFails(h, paths, answers.writable, 1)
    ensures var d := Restarted(h, paths, writes, answers).0.devices;
      && Settled(d, 0)
      && d == CleanDevices(h.devices.memory).(block := d.block, queue := d.queue, memory := d.memory)
      && d.block == Block.RESET.(units := d.block.units) && d.block.units[0].dirty == d.block.units[1].dirty == {}
      && Prefilled(CleanDevices(h.devices.memory).memory, writes) == Some(d.memory)
  {
    hide FlushedBoth, Restarted, Replaces, Prefilled, Zeros, AllAgree, Settled, WriteFails;
    RestartedReloads(h, paths, writes, answers);
    FlushAttemptsBoth(h, paths, answers.writable);
    ReplacingNeedsTheFlush(h, paths, writes, answers);
    ReplacedIsSettled(h, paths, writes, answers);
    FlushedMemory(h, paths, answers.writable);
  }

  /** A flush leaves a settled machine settled. */
  lemma FlushIsSettled(h: Hosted, paths: Paths, writable: Paths, ticks: nat)
    requires Settled(h.devices, ticks)
    ensures Settled(FlushedBoth(h, paths, writable).0.devices, ticks)
  {
    assert h.devices.Valid();
    hide Settled, FlushedUnit;
    FlushedUnitIsSettled(h, paths, 0, writable, ticks);
    FlushedUnitIsSettled(FlushedUnit(h, paths, 0, writable).0, paths, 1, writable, ticks);
  }

  lemma FlushedUnitIsSettled(h: Hosted, paths: Paths, unit: u32, writable: Paths, ticks: nat)
    requires Settled(h.devices, ticks) && unit < Block.UNIT_COUNT
    ensures Settled(FlushedUnit(h, paths, unit, writable).0.devices, ticks)
  {
    OpIsSettled(h.devices, ticks, BlockFlush(unit, writable[unit]));
    FlushTakesNoTime(h.devices, unit, writable[unit], ticks);
    hide Settled, Step;
  }

  lemma FlushTakesNoTime(d: Devices, unit: u32, writable: bool, ticks: nat)
    requires d.Valid()
    ensures Step(d, BlockFlush(unit, writable), ticks) == Step(d, BlockFlush(unit, writable), 0)
  {}
}
