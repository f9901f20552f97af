/** The write-back block device: one serialized request, two media units
    (crates/minemu-core/src/block.rs). */
module Block {
  import opened Platform
  import opened Bytes
  import opened Memory
  import Interrupts

  const SECTOR_SIZE := 512
  const COMPLETION_DELAY := 32
  const UNIT_COUNT := 2

  datatype Error =
    | NoError | NoMedia | Busy | InvalidCommand | InvalidDma
    | InvalidLba | DeferredPersistence | InvalidUnit

  datatype Request = Request(command: u32, lba: u32, sectorCount: u32, dmaAddress: u32, unit: u32, deadline: nat)

  /** Attached media and the sectors that differ from the host file. */
  datatype Unit = Unit(media: Option<seq<u8>>, dirty: set<nat>)

  datatype State = State(
    lba: u32, sectorCount: u32, dmaAddress: u32, unit: u32, irqEnabled: bool,
    complete: bool, error: Error, active: Option<Request>, units: seq<Unit>)
  {
    predicate Valid() { |units| == UNIT_COUNT }
    predicate IrqPending() { irqEnabled && complete }
  }

  const RESET := State(0, 0, 0, 0, false, false, NoError, None, [Unit(None, {}), Unit(None, {})])

  datatype Update =
    | Attach(unit: u32, media: seq<u8>)
    | Detach(unit: u32)
    | FlushFailed(unit: u32)
    | Command(command: u32)
    | Lba(value: u32)
    | SectorCount(value: u32)
    | DmaAddress(value: u32)
    | SelectUnit(value: u32)
    | Control(value: u32)
    | Ack

  predicate ValidMedia(media: seq<u8>) { media != [] && |media| % SECTOR_SIZE == 0 }

  /** Updates that the device refuses, leaving it unchanged. */
  predicate Refused(u: Update) {
    match u
    case Attach(unit, media) => !ValidMedia(media) || unit >= UNIT_COUNT
    case Detach(unit) => unit >= UNIT_COUNT
    case FlushFailed(unit) => unit >= UNIT_COUNT
    case _ => false
  }

  function Updated(s: State, u: Update, now: nat): (r: State)
    requires s.Valid()
    ensures r.Valid()
  {
    if Refused(u) then s
    else
      match u
      case Attach(unit, media) => s.(units := s.units[unit := Unit(Some(media), {})])
      case Detach(unit) => s.(units := s.units[unit := Unit(None, {})])
      case FlushFailed(_) => s.(complete := true, error := DeferredPersistence)
      case Command(command) =>
        if s.active.Some? then s.(complete := true, error := Busy)
        else s.(complete := false, error := NoError,
                active := Some(Request(command, s.lba, s.sectorCount, s.dmaAddress, s.unit, now + COMPLETION_DELAY)))
      case Lba(value) => s.(lba := value)
      case SectorCount(value) => s.(sectorCount := value)
      case DmaAddress(value) => s.(dmaAddress := value)
      case SelectUnit(value) => s.(unit := value)
      case Control(value) => s.(irqEnabled := value % 2 == 1)
      case Ack => s.(complete := false, error := NoError)
  }

  /** The checks made when a request falls due, in their order, against its unit. */
  function Validate(q: Request, units: seq<Unit>): (e: Error)
    requires |units| == UNIT_COUNT
    ensures e.NoError? ==>
      && q.unit < UNIT_COUNT && units[q.unit].media.Some? && 0 < q.sectorCount
      && InRam(q.dmaAddress, q.sectorCount * SECTOR_SIZE)
      && (q.lba + q.sectorCount) * SECTOR_SIZE <= |units[q.unit].media.value|
  {
    var length := q.sectorCount * SECTOR_SIZE;
    if q.unit >= UNIT_COUNT then InvalidUnit
    else if q.command != 1 && q.command != 2 then InvalidCommand
    else if length >= 0x1_0000_0000 then InvalidDma
    else if CheckedRange(q.dmaAddress, length).None? then InvalidDma
    else if q.dmaAddress % SECTOR_SIZE != 0 || !MemRegion.Ram.Extent().ContainsRange(Range(q.dmaAddress, length)) then InvalidDma
    else if units[q.unit].media.None? then NoMedia
    else if (q.lba + q.sectorCount) * SECTOR_SIZE > |units[q.unit].media.value| then InvalidLba
    else NoError
  }

  /** A buffer of whole sectors inside RAM, as DMA needs it. */
  predicate DmaBuffer(q: Request) {
    && 0 < q.sectorCount && q.dmaAddress % 512 == 0
    && 0x4000_0000 <= q.dmaAddress && q.dmaAddress + 512 * q.sectorCount <= 0x4400_0000
  }

  /** Which error a request reports: the first of unit, command, buffer, medium and sector
      range that is wrong. */
  lemma ErrorReported(q: Request, units: seq<Unit>)
    requires |units| == UNIT_COUNT
    ensures var e := Validate(q, units);
      && (e == InvalidUnit <==> q.unit > 1)
      && (q.unit <= 1 ==>
            var command := q.command == 1 || q.command == 2;
            var media := units[q.unit].media;
            && (e == InvalidCommand <==> !command)
            && (e == InvalidDma <==> command && !DmaBuffer(q))
            && (e == NoMedia <==> command && DmaBuffer(q) && media.None?)
            && (e == InvalidLba <==> command && DmaBuffer(q) && media.Some? && 512 * (q.lba + q.sectorCount) > |media.value|)
            && (e == NoError <==> command && DmaBuffer(q) && media.Some? && 512 * (q.lba + q.sectorCount) <= |media.value|))
  {}

  /** The sectors `lba`, ..., `lba + count - 1`. */
  function SectorRange(lba: nat, count: nat): (r: set<nat>)
    ensures forall k: nat :: k in r <==> lba <= k < lba + count
  {
    if count == 0 then {} else SectorRange(lba, count - 1) + {lba + count - 1}
  }

  /** How many sectors the marking loop visits: its 32-bit bound wraps round when `lba + count`
      does not fit, and the loop is then empty. */
  function Marked(lba: u32, count: u32): nat { if lba + count < 0x1_0000_0000 then count else 0 }

  datatype Effect = Effect(units: seq<Unit>, memory: Mem, error: Error)

  /** The transfer made by a due request: media to RAM for command 1, RAM to media with
      the sectors marked dirty for command 2. */
  function Execute(q: Request, units: seq<Unit>, m: Mem): (r: Effect)
    requires |units| == UNIT_COUNT && m.Valid()
    ensures |r.units| == UNIT_COUNT && r.memory.Valid()
  {
    var error := Validate(q, units);
    if error != NoError then Effect(units, m, error)
    else
      var u := units[q.unit];
      var start, length := q.lba * SECTOR_SIZE, q.sectorCount * SECTOR_SIZE;
      var offset := q.dmaAddress - RAM_BASE;
      if q.command == 1 then
        Effect(units, m.(ram := Splice(m.ram, offset, u.media.value[start..start + length])), NoError)
      else
        var media := Splice(u.media.value, start, m.ram[offset..offset + length]);
        Effect(units[q.unit := Unit(Some(media), u.dirty + SectorRange(q.lba, Marked(q.lba, q.sectorCount)))], m, NoError)
  }

  predicate Due(s: State, now: nat) { s.active.Some? && s.active.value.deadline <= now }

  /** `advance_to`. */
  function Advanced(s: State, m: Mem, now: nat): (r: (State, Mem))
    requires s.Valid() && m.Valid()
    ensures r.0.Valid() && r.1.Valid()
  {
    if !Due(s, now) then (s, m)
    else
      var effect := Execute(s.active.value, s.units, m);
      (s.(active := None, units := effect.units, error := effect.error, complete := true), effect.memory)
  }

  /** A flush that reaches the host write and sees it fail. */
  predicate FlushFails(s: State, unit: u32, writable: bool)
    requires s.Valid()
  {
    unit < UNIT_COUNT && s.units[unit].dirty != {} && s.units[unit].media.Some? && !writable
  }

  /** The result of a flush whose host write succeeds or fails as a whole: the device
      state, the bytes written to the host file, and whether the flush succeeded. */
  function Flushed(s: State, unit: u32, writable: bool): (r: (State, Option<seq<u8>>, bool))
    requires s.Valid()
    ensures r.0.Valid()
  {
    if unit >= UNIT_COUNT then (s, None, false)
    else if s.units[unit].dirty == {} then (s, None, true)
    else if s.units[unit].media.None? then (s, None, false)
    else if !writable then (s.(error := DeferredPersistence, complete := true), None, false)
    else (s.(units := s.units[unit := s.units[unit].(dirty := {})]), s.units[unit].media, true)
  }

  class BlockDevice {
    var lba: u32
    var sectorCount: u32
    var dmaAddress: u32
    var unit: u32
    var irqEnabled: bool
    var complete: bool
    var error: Error
    var active: Option<Request>
    var units: seq<Unit>
    const sender: Interrupts.SignalQueue

    ghost predicate Valid()
      reads this
    {
      |units| == UNIT_COUNT
    }

    function Value(): State
      reads this
    {
      State(lba, sectorCount, dmaAddress, unit, irqEnabled, complete, error, active, units)
    }

    constructor (queue: Interrupts.SignalQueue)
      ensures Valid() && sender == queue && Value() == RESET
    {
      sender := queue;
      lba, sectorCount, dmaAddress, unit, irqEnabled := 0, 0, 0, 0, false;
      complete, error, active := false, NoError, None;
      units := [Unit(None, {}), Unit(None, {})];
    }

    method SignalInterrupt()
      modifies sender
      ensures sender.signals == old(sender.signals) + [Interrupts.Signal(Interrupts.Source.Block, Value().IrqPending())]
    {
      sender.Send(Interrupts.Signal(Interrupts.Source.Block, irqEnabled && complete));
    }

    /** The register and media changes of an update. */
    method Apply(u: Update, now: nat) returns (ok: bool)
      requires Valid()
      modifies this
      ensures Valid() && ok == !Refused(u) && Value() == Updated(old(Value()), u, now)
    {
      match u {
        case Attach(index, media) =>
          if !ValidMedia(media) || index >= UNIT_COUNT { return false; }
          units := units[index := Unit(Some(media), {})];
        case Detach(index) =>
          if index >= UNIT_COUNT { return false; }
          units := units[index := Unit(None, {})];
        case FlushFailed(index) =>
          if index >= UNIT_COUNT { return false; }
          error, complete := DeferredPersistence, true;
        case Command(command) =>
          if active.Some? {
            complete, error := true, Busy;
          } else {
            complete, error := false, NoError;
            active := Some(Request(command, lba, sectorCount, dmaAddress, unit, now + COMPLETION_DELAY));
          }
        case Lba(value) => lba := value;
        case SectorCount(value) => sectorCount := value;
        case DmaAddress(value) => dmaAddress := value;
        case SelectUnit(value) => unit := value;
        case Control(value) => irqEnabled := value % 2 == 1;
        case Ack => complete, error := false, NoError;
      }
      return true;
    }

    /** `update`: a refused update changes nothing and sends nothing. */
    method Update(u: Update, now: nat) returns (ok: bool)
      requires Valid()
      modifies this, sender
      ensures Valid() && ok == !Refused(u) && Value() == Updated(old(Value()), u, now)
      ensures sender.signals == old(sender.signals) +
        if ok then [Interrupts.Signal(Interrupts.Source.Block, Value().IrqPending())] else []
    {
      hide Updated, Refused;
      ok := Apply(u, now);
      if ok { SignalInterrupt(); }
    }

    /** `execute`: the DMA transfer and the loop that marks written sectors dirty. */
    method ExecuteRequest(q: Request, memory: PhysicalMemory) returns (e: Error)
      requires Valid() && memory.Valid()
      modifies this`units, memory.ram
      ensures Valid()
      ensures Effect(units, memory.Contents(), e) == Execute(q, old(units), old(memory.Contents()))
    {
      hide Validate, Splice, WriteRange, RegionOf;
      e := Validate(q, units);
      if e != NoError { return; }
      var u := units[q.unit];
      var start, length := q.lba * SECTOR_SIZE, q.sectorCount * SECTOR_SIZE;
      if q.command == 1 {
        RamWriteSucceeds(memory.Contents(), q.dmaAddress, u.media.value[start..start + length]);
        var stored := memory.Store(q.dmaAddress, u.media.value[start..start + length]);
        assert stored.Ok?;
      } else {
        var offset := q.dmaAddress - RAM_BASE;
        var media := Splice(u.media.value, start, memory.ram[offset..offset + length]);
        var dirty := u.dirty;
        var sector, end := q.lba, (q.lba + q.sectorCount) % 0x1_0000_0000;
        while sector < end
          invariant q.lba <= sector <= q.lba + Marked(q.lba, q.sectorCount)
          invariant dirty == u.dirty + SectorRange(q.lba, sector - q.lba)
        {
          dirty := dirty + {sector};
          sector := sector + 1;
        }
        units := units[q.unit := Unit(Some(media), dirty)];
      }
    }

    /** `advance_to`: completes a due request. */
    method AdvanceTo(now: nat, memory: PhysicalMemory)
      requires Valid() && memory.Valid()
      modifies this, sender, memory.ram
      ensures Valid() && (Value(), memory.Contents()) == Advanced(old(Value()), old(memory.Contents()), now)
      ensures sender.signals == old(sender.signals) +
        if Due(old(Value()), now) then [Interrupts.Signal(Interrupts.Source.Block, Value().IrqPending())] else []
    {
      if active.None? { return; }
      var request := active.value;
      if request.deadline > now { return; }
      active := None;
      error := ExecuteRequest(request, memory);
      complete := true;
      SignalInterrupt();
    }

    /** `flush`: `writable` is the outcome of the host write, `written` the file it replaces. */
    method Flush(index: u32, writable: bool) returns (written: Option<seq<u8>>, ok: bool)
      requires Valid()
      modifies this, sender
      ensures Valid() && (Value(), written, ok) == Flushed(old(Value()), index, writable)
      ensures sender.signals == old(sender.signals) +
        if FlushFails(old(Value()), index, writable)
        then [Interrupts.Signal(Interrupts.Source.Block, Value().IrqPending())] else []
    {
      if index >= UNIT_COUNT { return None, false; }
      if units[index].dirty == {} { return None, true; }
      if units[index].media.None? { return None, false; }
      if !writable {
        error, complete := DeferredPersistence, true;
        SignalInterrupt();
        return None, false;
      }
      written := units[index].media;
      units := units[index := units[index].(dirty := {})];
      return written, true;
    }
  }
}
