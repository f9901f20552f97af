/** What the block device promises over whole runs: write-back media that agrees with the
    host files, and requests that complete exactly on time from a snapshot
    (crates/minemu-core/src/block.rs, docs/platform/devices-v2.md). */
module WriteBack {
  import opened Platform
  import opened Bytes
  import opened Memory
  import opened Block
  import opened Registers

  /** The device, guest memory and the host file behind each unit. */
  datatype World = World(device: State, memory: Mem, host: seq<seq<u8>>) {
    predicate Valid() { device.Valid() && memory.Valid() && |host| == UNIT_COUNT }
  }

  /** Attaching a unit reads its host file; a flush replaces the file as a whole or fails. */
  datatype Event =
    | Input(update: Update, now: nat)
    | Tick(now: nat)
    | Flush(unit: u32, writable: bool)
    | GuestStores(memory: Mem)

  function Step(w: World, e: Event): (r: World)
    requires w.Valid() && (e.GuestStores? ==> e.memory.Valid())
    ensures r.Valid()
  {
    match e
    case Input(update, now) =>
      var host := if update.Attach? && !Refused(update) then w.host[update.unit := update.media] else w.host;
      World(Updated(w.device, update, now), w.memory, host)
    case Tick(now) =>
      var (device, memory) := Advanced(w.device, w.memory, now);
      World(device, memory, w.host)
    case Flush(unit, writable) =>
      var (device, written, ok) := Flushed(w.device, unit, writable);
      World(device, w.memory, if written.Some? then w.host[unit := written.value] else w.host)
    case GuestStores(memory) => w.(memory := memory)
  }

  ghost predicate ValidRun(events: seq<Event>) {
    forall i | 0 <= i < |events| :: events[i].GuestStores? ==> events[i].memory.Valid()
  }

  ghost function Run(w: World, events: seq<Event>): (r: World)
    requires w.Valid() && ValidRun(events)
    ensures r.Valid()
    decreases |events|
  {
    if events == [] then w else Run(Step(w, events[0]), events[1..])
  }

  // ---- Agreement with the host files ----

  /** Every sector has a 32-bit number with room for the one past it. */
  predicate Addressable(media: seq<u8>) { Sectors(media) < 0x1_0000_0000 }

  function Sectors(media: seq<u8>): nat { |media| / SECTOR_SIZE }

  function Sector(media: seq<u8>, k: nat): seq<u8>
    requires k < Sectors(media)
  {
    media[k * SECTOR_SIZE..k * SECTOR_SIZE + SECTOR_SIZE]
  }

  /** The host file is addressable, dirty sectors lie on the media, and every clean sector
      equals its host copy. */
  ghost predicate UnitAgrees(u: Unit, host: seq<u8>) {
    && Addressable(host)
    && match u.media
       case None => u.dirty == {}
       case Some(media) =>
         && ValidMedia(media) && |host| == |media|
         && (forall k | k in u.dirty :: k < Sectors(media))
         && forall k: nat | k < Sectors(media) && k !in u.dirty :: Sector(media, k) == Sector(host, k)
  }

  /** An attach brings media of fewer than 2^32 sectors. */
  predicate AttachesAddressable(e: Event) { e.Input? && e.update.Attach? ==> Addressable(e.update.media) }

  /** A DMA write into media disagrees with the host only on the sectors it marks dirty. */
  lemma SpliceAgrees(u: Unit, host: seq<u8>, lba: nat, count: nat, data: seq<u8>)
    requires UnitAgrees(u, host) && u.media.Some?
    requires |data| == count * SECTOR_SIZE && (lba + count) * SECTOR_SIZE <= |u.media.value|
    ensures UnitAgrees(Unit(Some(Splice(u.media.value, lba * SECTOR_SIZE, data)), u.dirty + SectorRange(lba, count)), host)
  {
    var before, media := u.media.value, Splice(u.media.value, lba * SECTOR_SIZE, data);
    forall k: nat | k < Sectors(media) && k !in u.dirty + SectorRange(lba, count)
      ensures Sector(media, k) == Sector(host, k)
    {
      SpliceSlices(before, lba * SECTOR_SIZE, data, k * SECTOR_SIZE, k * SECTOR_SIZE + SECTOR_SIZE);
      assert Sector(media, k) == Sector(before, k);
    }
  }

  lemma AllSectorsMarked(u: Unit, host: seq<u8>, lba: u32, count: u32)
    requires UnitAgrees(u, host) && u.media.Some? && (lba + count) * SECTOR_SIZE <= |u.media.value|
    ensures Marked(lba, count) == count
  {}

  lemma ExecuteAgrees(q: Request, units: seq<Unit>, m: Mem, host: seq<u8>, i: nat)
    requires |units| == UNIT_COUNT && m.Valid() && i < UNIT_COUNT && UnitAgrees(units[i], host)
    ensures UnitAgrees(Execute(q, units, m).units[i], host)
  {
    hide Validate, UnitAgrees;
    if Validate(q, units) == NoError && q.command != 1 && q.unit == i {
      var offset := q.dmaAddress - RAM_BASE;
      AllSectorsMarked(units[i], host, q.lba, q.sectorCount);
      SpliceAgrees(units[i], host, q.lba, q.sectorCount, m.ram[offset..offset + q.sectorCount * SECTOR_SIZE]);
    }
  }

  /** Every step keeps each unit in agreement with its host file, whatever the other unit does. */
  lemma StepAgrees(w: World, e: Event, i: nat)
    requires w.Valid() && (e.GuestStores? ==> e.memory.Valid()) && AttachesAddressable(e)
    requires i < UNIT_COUNT && UnitAgrees(w.device.units[i], w.host[i])
    ensures UnitAgrees(Step(w, e).device.units[i], Step(w, e).host[i])
  {
    if e.Tick? && Due(w.device, e.now) {
      hide Execute, UnitAgrees;
      ExecuteAgrees(w.device.active.value, w.device.units, w.memory, w.host[i], i);
    }
  }

  lemma {:induction false} RunAgrees(w: World, events: seq<Event>, i: nat)
    requires w.Valid() && ValidRun(events) && i < UNIT_COUNT && UnitAgrees(w.device.units[i], w.host[i])
    requires forall k | 0 <= k < |events| :: AttachesAddressable(events[k])
    ensures UnitAgrees(Run(w, events).device.units[i], Run(w, events).host[i])
    decreases |events|
  {
    if events != [] {
      StepAgrees(w, events[0], i);
      hide Step, UnitAgrees;
      RunAgrees(Step(w, events[0]), events[1..], i);
    }
  }

  /** Sectors cover the media: clean media is the host file. */
  lemma CleanMeansEqual(u: Unit, host: seq<u8>)
    requires UnitAgrees(u, host) && u.media.Some? && u.dirty == {}
    ensures u.media.value == host
  {
    var media := u.media.value;
    forall i | 0 <= i < |media|
      ensures media[i] == host[i]
    {
      var k, o := i / SECTOR_SIZE, i % SECTOR_SIZE;
      assert k < Sectors(media);
      assert media[i] == Sector(media, k)[o] && host[i] == Sector(host, k)[o];
    }
  }

  /** A flush that reports success leaves the host file equal to the media with no dirty
      sector, including when it returned early without writing. */
  lemma SuccessfulFlushPersists(w: World, unit: u32, writable: bool)
    requires w.Valid() && Flushed(w.device, unit, writable).2
    requires unit < UNIT_COUNT ==> UnitAgrees(w.device.units[unit], w.host[unit])
    ensures unit < UNIT_COUNT
    ensures var after := Step(w, Flush(unit, writable));
      && after.device.units[unit] == w.device.units[unit].(dirty := {})
      && (w.device.units[unit].media.Some? ==> after.host[unit] == w.device.units[unit].media.value)
  {
    if w.device.units[unit].media.Some? && w.device.units[unit].dirty == {} {
      CleanMeansEqual(w.device.units[unit], w.host[unit]);
    }
  }

  /** A flush that fails keeps the unit's media and dirty set and the host file, and
      reports the deferred error; in a run it fails only because the host write failed. */
  lemma FailedFlushKeepsDirty(w: World, unit: u32, writable: bool)
    requires w.Valid() && unit < UNIT_COUNT && !Flushed(w.device, unit, writable).2
    requires UnitAgrees(w.device.units[unit], w.host[unit])
    ensures FlushFails(w.device, unit, writable)
    ensures var after := Step(w, Flush(unit, writable));
      && after.device.units == w.device.units && after.host == w.host
      && after.device.complete && after.device.error == DeferredPersistence
  {}

  /** Attaching, detaching, flushes and completions touch only the unit they name. */
  lemma OtherUnitIsUntouched(w: World, e: Event, other: nat)
    requires w.Valid() && other < UNIT_COUNT
    requires match e
             case Flush(unit, _) => unit != other
             case Tick(now) => Due(w.device, now) ==> w.device.active.value.unit != other
             case Input(Attach(unit, _), _) => unit != other
             case Input(Detach(unit), _) => unit != other
             case Input(_, _) => true
             case GuestStores(_) => e.memory.Valid()
    ensures Step(w, e).device.units[other] == w.device.units[other] && Step(w, e).host[other] == w.host[other]
  {
    hide Validate, Splice;
  }

  /** A write marks every sector it changes exactly when the number past its last sector fits
      in 32 bits, or the sectors were dirty anyway: only on media of 2^32 sectors or more can a
      written sector stay clean. */
  lemma WriteMarksExactly(q: Request, units: seq<Unit>, m: Mem)
    requires |units| == UNIT_COUNT && m.Valid() && q.command == 2 && Execute(q, units, m).error == NoError
    ensures SectorRange(q.lba, q.sectorCount) <= Execute(q, units, m).units[q.unit].dirty
       <==> q.lba + q.sectorCount < 0x1_0000_0000 || SectorRange(q.lba, q.sectorCount) <= units[q.unit].dirty
  {
    hide Validate, Splice;
    assert q.lba in SectorRange(q.lba, q.sectorCount);
  }

  // ---- Snapshot and deadline ----

  /** Whatever is written to the controller, an active request stays as it was accepted
      until its deadline: staging writes, ACKs, commands rejected as busy, media changes,
      flushes, guest stores and earlier ticks do not disturb it. */
  lemma {:induction false} BusyUntilDeadline(w: World, events: seq<Event>, q: Request)
    requires w.Valid() && ValidRun(events) && w.device.active == Some(q)
    requires forall i | 0 <= i < |events| :: events[i].Tick? ==> events[i].now < q.deadline
    ensures Run(w, events).device.active == Some(q)
    decreases |events|
  {
    if events != [] {
      assert Step(w, events[0]).device.active == Some(q) by { hide Execute; }
      BusyUntilDeadline(Step(w, events[0]), events[1..], q);
    }
  }

  /** A command accepted at tick T is busy throughout every run of ticks before T + 32, and
      at T + 32 it completes with the result of the request as it was when accepted. */
  lemma CommandCompletesOnTime(w: World, command: u32, T: nat, events: seq<Event>)
    requires w.Valid() && w.device.active.None? && ValidRun(events)
    requires forall i | 0 <= i < |events| :: events[i].Tick? ==> events[i].now < T + 32
    ensures var d := w.device;
      var q := Request(command, d.lba, d.sectorCount, d.dmaAddress, d.unit, T + 32);
      var atDeadline := Run(Step(w, Input(Command(command), T)), events);
      var effect := Execute(q, atDeadline.device.units, atDeadline.memory);
      var done := Step(atDeadline, Tick(T + 32));
      && atDeadline.device.active == Some(q)
      && done.device.active.None? && done.device.complete && done.device.error == effect.error
      && done.device.units == effect.units && done.memory == effect.memory
  {
    hide Execute, Run;
    var d := w.device;
    var q := Request(command, d.lba, d.sectorCount, d.dmaAddress, d.unit, T + 32);
    BusyUntilDeadline(Step(w, Input(Command(command), T)), events, q);
  }

  /** A write leaves its buffer on the media it names. */
  lemma PutWrites(put: Request, units: seq<Unit>, m: Mem)
    requires |units| == UNIT_COUNT && m.Valid() && put.command == 2 && Execute(put, units, m).error == NoError
    ensures var after := Execute(put, units, m).units;
      var start, length := put.lba * SECTOR_SIZE, put.sectorCount * SECTOR_SIZE;
      && InRam(put.dmaAddress, length) && after[put.unit].media.Some? && |after[put.unit].media.value| == |units[put.unit].media.value|
      && start + length <= |after[put.unit].media.value|
      && after[put.unit].media.value[start..start + length] == m.ram[put.dmaAddress - RAM_BASE..put.dmaAddress - RAM_BASE + length]
  {
    var from, length := put.dmaAddress - RAM_BASE, put.sectorCount * SECTOR_SIZE;
    hide Validate;
    SpliceSlices(units[put.unit].media.value, put.lba * SECTOR_SIZE, m.ram[from..from + length], 0, 0);
    hide Splice;
  }

  /** A read leaves the sectors it names in its buffer, and the media as it was. */
  lemma GetReads(get: Request, units: seq<Unit>, m: Mem)
    requires |units| == UNIT_COUNT && m.Valid() && get.command == 1 && Validate(get, units) == NoError
    ensures var after := Execute(get, units, m);
      var start, length := get.lba * SECTOR_SIZE, get.sectorCount * SECTOR_SIZE;
      var to := get.dmaAddress - RAM_BASE;
      && after.error == NoError && after.units == units
      && after.memory.ram[to..to + length] == units[get.unit].media.value[start..start + length]
  {
    var start, length := get.lba * SECTOR_SIZE, get.sectorCount * SECTOR_SIZE;
    hide Validate;
    SpliceSlices(m.ram, get.dmaAddress - RAM_BASE, units[get.unit].media.value[start..start + length], 0, 0);
    hide Splice;
  }

  /** Whatever was written can be read to any sector-aligned buffer in RAM. */
  lemma GetIsValid(put: Request, get: Request, units: seq<Unit>, after: seq<Unit>)
    requires |units| == |after| == UNIT_COUNT && put.command == 2 && Validate(put, units) == NoError
    requires get == put.(command := 1, dmaAddress := get.dmaAddress, deadline := get.deadline)
    requires get.dmaAddress % SECTOR_SIZE == 0 && InRam(get.dmaAddress, get.sectorCount * SECTOR_SIZE)
    requires after[put.unit].media.Some? && |after[put.unit].media.value| == |units[put.unit].media.value|
    ensures Validate(get, after) == NoError
  {}

  /** Sectors written from one RAM buffer read back into any other as the same bytes,
      without waiting for the host. */
  lemma ReadBackSeesWrite(put: Request, get: Request, units: seq<Unit>, m: Mem, later: Mem)
    requires |units| == UNIT_COUNT && m.Valid() && later.Valid()
    requires put.command == 2 && Execute(put, units, m).error == NoError
    requires get == put.(command := 1, dmaAddress := get.dmaAddress, deadline := get.deadline)
    requires get.dmaAddress % SECTOR_SIZE == 0 && InRam(get.dmaAddress, get.sectorCount * SECTOR_SIZE)
    ensures var after := Execute(get, Execute(put, units, m).units, later);
      var length, from, to := put.sectorCount * SECTOR_SIZE, put.dmaAddress - RAM_BASE, get.dmaAddress - RAM_BASE;
      && after.error == NoError && InRam(put.dmaAddress, length)
      && after.memory.ram[to..to + length] == m.ram[from..from + length]
      && after.units == Execute(put, units, m).units
  {
    ErrorIsValidation(put, units, m);
    hide Execute, Validate;
    PutWrites(put, units, m);
    GetIsValid(put, get, units, Execute(put, units, m).units);
    GetReads(get, Execute(put, units, m).units, later);
  }

  lemma ErrorIsValidation(q: Request, units: seq<Unit>, m: Mem)
    requires |units| == UNIT_COUNT && m.Valid()
    ensures Execute(q, units, m).error == Validate(q, units)
  {
    hide Validate, Splice;
  }

  // ---- Registers, status and transfers, in numbers ----

  function WrittenLba(e: Event): Option<u32> { if e.Input? && e.update.Lba? then Some(e.update.value) else None }

  function WrittenCount(e: Event): Option<u32> { if e.Input? && e.update.SectorCount? then Some(e.update.value) else None }

  function WrittenAddress(e: Event): Option<u32> { if e.Input? && e.update.DmaAddress? then Some(e.update.value) else None }

  function WrittenUnit(e: Event): Option<u32> { if e.Input? && e.update.SelectUnit? then Some(e.update.value) else None }

  function WrittenIrq(e: Event): Option<bool> { if e.Input? && e.update.Control? then Some(e.update.value % 2 == 1) else None }

  lemma OneEventStages(w: World, e: Event)
    requires w.Valid() && (e.GuestStores? ==> e.memory.Valid())
    ensures var before, after := w.device, Step(w, e).device;
      && after.lba == (if WrittenLba(e).Some? then WrittenLba(e).value else before.lba)
      && after.sectorCount == (if WrittenCount(e).Some? then WrittenCount(e).value else before.sectorCount)
      && after.dmaAddress == (if WrittenAddress(e).Some? then WrittenAddress(e).value else before.dmaAddress)
      && after.unit == (if WrittenUnit(e).Some? then WrittenUnit(e).value else before.unit)
      && after.irqEnabled == (if WrittenIrq(e).Some? then WrittenIrq(e).value else before.irqEnabled)
  {
    hide Execute;
  }

  /** Over any run, whatever completes, fails or is attached meanwhile, each staging register
      holds what was last written to it, and bit 0 of the last CONTROL enables the interrupt. */
  lemma {:induction false} StagingHoldsLatest(w: World, events: seq<Event>)
    requires w.Valid() && ValidRun(events)
    ensures var d := Run(w, events).device;
      && d.lba == Latest(events, WrittenLba, w.device.lba)
      && d.sectorCount == Latest(events, WrittenCount, w.device.sectorCount)
      && d.dmaAddress == Latest(events, WrittenAddress, w.device.dmaAddress)
      && d.unit == Latest(events, WrittenUnit, w.device.unit)
      && d.irqEnabled == Latest(events, WrittenIrq, w.device.irqEnabled)
    decreases |events|
  {
    if events != [] {
      OneEventStages(w, events[0]);
      hide Step;
      StagingHoldsLatest(Step(w, events[0]), events[1..]);
      LatestFromFront(events, WrittenLba, w.device.lba);
      LatestFromFront(events, WrittenCount, w.device.sectorCount);
      LatestFromFront(events, WrittenAddress, w.device.dmaAddress);
      LatestFromFront(events, WrittenUnit, w.device.unit);
      LatestFromFront(events, WrittenIrq, w.device.irqEnabled);
      hide Latest;
    }
  }

  /** So a command after any run snapshots the values last written, clears the status and is due
      32 ticks later. */
  lemma CommandSnapshotsLatest(w: World, events: seq<Event>, command: u32, T: nat)
    requires w.Valid() && ValidRun(events) && Run(w, events).device.active.None?
    ensures var d := Step(Run(w, events), Input(Command(command), T)).device;
      && !d.complete && d.error == NoError
      && d.active == Some(Request(command, Latest(events, WrittenLba, w.device.lba),
                                  Latest(events, WrittenCount, w.device.sectorCount),
                                  Latest(events, WrittenAddress, w.device.dmaAddress),
                                  Latest(events, WrittenUnit, w.device.unit), T + 32))
  {
    hide Run;
    StagingHoldsLatest(w, events);
  }

  /** What each update does to the status and to the units: ACK clears Complete and Error, a
      command while busy and a failed flush set Complete and their error, an attach or detach
      changes its own unit, and nothing else touches them. */
  lemma StatusAndMedia(s: State, u: Update, now: nat)
    requires s.Valid() && !Refused(u)
    ensures var r := Updated(s, u, now);
      && (u.Ack? ==> !r.complete && r.error == NoError)
      && (u.FlushFailed? ==> r.complete && r.error == DeferredPersistence)
      && (u.Command? && s.active.Some? ==> r.complete && r.error == Busy)
      && (!u.Ack? && !u.FlushFailed? && !u.Command? ==> r.complete == s.complete && r.error == s.error)
      && (!u.Command? || s.active.Some? ==> r.active == s.active)
      && (u.Attach? || u.Detach? ==>
            && u.unit < 2 && r.units[1 - u.unit] == s.units[1 - u.unit]
            && r.units[u.unit].media == (if u.Attach? then Some(u.media) else None) && r.units[u.unit].dirty == {})
      && (!u.Attach? && !u.Detach? ==> r.units == s.units)
  {}

  /** An update is refused for media that is not whole sectors and for a unit that does not exist. */
  lemma RefusedExactly(u: Update)
    ensures Refused(u) <==>
      || (u.Attach? && (u.media == [] || |u.media| % 512 != 0 || u.unit > 1))
      || ((u.Detach? || u.FlushFailed?) && u.unit > 1)
  {}

  /** A read changes `512 * count` bytes of RAM from the buffer's start on, and nothing else:
      byte by byte they are the media from byte `512 * lba` on. */
  lemma ReadTransfers(q: Request, units: seq<Unit>, m: Mem)
    requires |units| == UNIT_COUNT && m.Valid() && q.command == 1 && Execute(q, units, m).error == NoError
    ensures var after, n := Execute(q, units, m), 512 * q.sectorCount;
      && q.unit < 2 && units[q.unit].media.Some? && 512 * q.lba + n <= |units[q.unit].media.value|
      && after.units == units && after.memory.bootRom == m.bootRom && after.memory.systemRom == m.systemRom
      && forall x | 0 <= x < RAM_SIZE ::
           after.memory.ram[x] == if 0 <= 0x4000_0000 + x - q.dmaAddress < n
                                  then units[q.unit].media.value[512 * q.lba + (0x4000_0000 + x - q.dmaAddress)] else m.ram[x]
  {
    ErrorIsValidation(q, units, m);
    hide Validate;
  }

  /** A write changes those bytes of the medium and no memory. */
  lemma WriteTransfers(q: Request, units: seq<Unit>, m: Mem)
    requires |units| == UNIT_COUNT && m.Valid() && q.command != 1 && Execute(q, units, m).error == NoError
    ensures var after, n := Execute(q, units, m), 512 * q.sectorCount;
      && q.command == 2 && after.memory == m
      && q.unit < 2 && units[q.unit].media.Some? && after.units[q.unit].media.Some? && after.units[1 - q.unit] == units[1 - q.unit]
      && 0x4000_0000 <= q.dmaAddress && q.dmaAddress + n <= 0x4400_0000
      && var before, written := units[q.unit].media.value, after.units[q.unit].media.value;
         && |written| == |before|
         && forall x | 0 <= x < |before| ::
              written[x] == if 512 * q.lba <= x < 512 * q.lba + n
                            then m.ram[q.dmaAddress - 0x4000_0000 + x - 512 * q.lba] else before[x]
  {
    ErrorIsValidation(q, units, m);
    assert Validate(q, units) == NoError ==> q.command == 1 || q.command == 2;
    hide Validate;
  }
}
