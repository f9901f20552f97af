/** Immutable ROMs and mutable RAM behind the physical map
    (crates/minemu-core/src/memory.rs). */
module Memory {
  import opened Platform
  import opened Bytes

  datatype CoreError = UnmappedPhysicalAddress | ImmutablePhysicalAddress | PhysicalAccessOutOfBounds

  /** The value of physical memory: two ROM images and RAM, all of fixed size. */
  datatype Mem = Mem(bootRom: seq<u8>, systemRom: seq<u8>, ram: seq<u8>) {
    predicate Valid() {
      |bootRom| == BOOT_ROM_SIZE && |systemRom| == SYSTEM_ROM_SIZE && |ram| == RAM_SIZE
    }
  }

  /** `region_slice`: `length` bytes at `address`, all inside one memory region. */
  function Slice(m: Mem, address: u32, length: nat): (r: Result<seq<u8>, CoreError>)
    requires m.Valid()
    ensures r.Ok? ==> |r.value| == length
  {
    match RegionOf(address)
    case None => Err(UnmappedPhysicalAddress)
    case Some(region) =>
      var offset := address - region.Extent().start;
      if region.IsDevice() then Err(UnmappedPhysicalAddress)
      else
        var storage := match region case BootRom => m.bootRom case SystemRom => m.systemRom case _ => m.ram;
        if offset + length > |storage| then Err(PhysicalAccessOutOfBounds)
        else Ok(storage[offset..offset + length])
  }

  function ReadU32(m: Mem, address: u32): Result<u32, CoreError>
    requires m.Valid()
  {
    var r := Slice(m, address, 4);
    if r.Ok? then Ok(FromLe32(r.value)) else Err(r.error)
  }

  /** `write_range` through `region_slice_mut`: only RAM can be written. */
  function WriteRange(m: Mem, address: u32, bytes: seq<u8>): (r: Result<Mem, CoreError>)
    requires m.Valid()
    ensures r.Ok? ==> r.value.Valid()
  {
    match RegionOf(address)
    case None => Err(UnmappedPhysicalAddress)
    case Some(region) =>
      if !region.Ram? then Err(ImmutablePhysicalAddress)
      else if address - RAM_BASE + |bytes| > |m.ram| then Err(PhysicalAccessOutOfBounds)
      else Ok(m.(ram := Splice(m.ram, address - RAM_BASE, bytes)))
  }

  /** Bytes `offset`, ..., `offset + length - 1` of a storage, unless it ends before. */
  function Within(storage: seq<u8>, offset: nat, length: nat): Result<seq<u8>, CoreError> {
    if offset + length <= |storage| then Ok(storage[offset..offset + length]) else Err(PhysicalAccessOutOfBounds)
  }

  /** Where every address is stored, in numbers; device registers and holes have no storage. */
  lemma StorageMap(m: Mem, a: u32, length: nat)
    requires m.Valid()
    ensures Slice(m, a, length) ==
      if a < 0x1_0000 then Within(m.bootRom, a, length)
      else if 0x0800_0000 <= a < 0x0900_0000 then Within(m.systemRom, a - 0x0800_0000, length)
      else if 0x4000_0000 <= a < 0x4400_0000 then Within(m.ram, a - 0x4000_0000, length)
      else Err(UnmappedPhysicalAddress)
  {}

  /** Only RAM can be written, and a write changes exactly the bytes it covers. */
  lemma WriteMap(m: Mem, a: u32, bytes: seq<u8>)
    requires m.Valid()
    ensures WriteRange(m, a, bytes).Ok? <==> 0x4000_0000 <= a < 0x4400_0000 && a + |bytes| <= 0x4400_0000
    ensures WriteRange(m, a, bytes).Ok? ==>
      var after := WriteRange(m, a, bytes).value;
      && after.bootRom == m.bootRom && after.systemRom == m.systemRom
      && forall x | 0 <= x < RAM_SIZE :: after.ram[x] == if 0 <= 0x4000_0000 + x - a < |bytes| then bytes[0x4000_0000 + x - a] else m.ram[x]
    ensures WriteRange(m, a, bytes).Err? ==>
      WriteRange(m, a, bytes).error ==
        if RegionOf(a).None? then UnmappedPhysicalAddress
        else if 0x4000_0000 <= a < 0x4400_0000 then PhysicalAccessOutOfBounds else ImmutablePhysicalAddress
  {}

  /** A byte range that lies wholly inside RAM. */
  predicate InRam(address: u32, length: nat) {
    RAM_BASE <= address && address + length <= RAM_BASE + RAM_SIZE
  }

  lemma RamWriteSucceeds(m: Mem, address: u32, bytes: seq<u8>)
    requires m.Valid() && bytes != [] && InRam(address, |bytes|)
    ensures WriteRange(m, address, bytes) == Ok(m.(ram := Splice(m.ram, address - RAM_BASE, bytes)))
  {}

  lemma ReadInRam(m: Mem, address: u32)
    requires m.Valid() && InRam(address, 4)
    ensures ReadU32(m, address) == Ok(FromLe32(m.ram[address - RAM_BASE..address - RAM_BASE + 4]))
  {
    hide FromLe32;
  }

  lemma ReadOutsideRam(m: Mem, ram: seq<u8>, address: u32)
    requires m.Valid() && |ram| == RAM_SIZE && !InRam(address, 4)
    ensures ReadU32(m.(ram := ram), address) == ReadU32(m, address)
  {
    hide FromLe32;
  }

  /** Word-aligned stores are seen by the same word and by no other aligned word. */
  lemma ReadAfterWrite(m: Mem, address: u32, value: u32, other: u32)
    requires m.Valid() && InRam(address, 4) && address % 4 == 0 && other % 4 == 0
    ensures WriteRange(m, address, Le32(value)).Ok?
    ensures ReadU32(WriteRange(m, address, Le32(value)).value, other)
         == if other == address then Ok(value) else ReadU32(m, other)
  {
    hide Le32, FromLe32, Splice, ReadU32;
    RamWriteSucceeds(m, address, Le32(value));
    hide WriteRange;
    var offset, after := address - RAM_BASE, WriteRange(m, address, Le32(value)).value;
    Le32RoundTrip(value);
    if InRam(other, 4) {
      SpliceSlices(m.ram, offset, Le32(value), other - RAM_BASE, other - RAM_BASE + 4);
      ReadInRam(m, other);
      ReadInRam(after, other);
    } else {
      ReadOutsideRam(m, after.ram, other);
    }
  }

  lemma FourCells(s: seq<u8>, offset: nat)
    requires offset + 4 <= |s|
    ensures s[offset..offset + 4] == [s[offset], s[offset + 1], s[offset + 2], s[offset + 3]]
  {}

  class PhysicalMemory {
    const bootRom: seq<u8>
    const systemRom: seq<u8>
    const ram: array<u8>

    ghost predicate Valid() {
      |bootRom| == BOOT_ROM_SIZE && |systemRom| == SYSTEM_ROM_SIZE && ram.Length == RAM_SIZE
    }

    ghost function Contents(): (m: Mem)
      reads ram
      ensures Valid() ==> m.Valid()
    {
      Mem(bootRom, systemRom, ram[..])
    }

    /** The supplied ROM contents, each padded with zeros to its region; RAM is zero. */
    constructor (boot: seq<u8>, system: seq<u8>)
      requires |boot| <= BOOT_ROM_SIZE && |system| <= SYSTEM_ROM_SIZE
      ensures Valid() && fresh(ram)
      ensures bootRom == boot + Zeros(BOOT_ROM_SIZE - |boot|) && systemRom == system + Zeros(SYSTEM_ROM_SIZE - |system|)
      ensures forall i :: 0 <= i < ram.Length ==> ram[i] == 0
    {
      bootRom := boot + Zeros(BOOT_ROM_SIZE - |boot|);
      systemRom := system + Zeros(SYSTEM_ROM_SIZE - |system|);
      ram := new u8[RAM_SIZE](_ => 0);
    }

    /** `with_roms`: a ROM larger than its region is an error. */
    static method WithRoms(boot: seq<u8>, system: seq<u8>) returns (r: Result<PhysicalMemory, CoreError>)
      ensures r.Err? <==> |boot| > BOOT_ROM_SIZE || |system| > SYSTEM_ROM_SIZE
      ensures r.Err? ==> r.error == PhysicalAccessOutOfBounds
      ensures r.Ok? ==>
        && fresh(r.value) && fresh(r.value.ram) && r.value.Valid()
        && boot <= r.value.bootRom && system <= r.value.systemRom
        && (forall i | |boot| <= i < BOOT_ROM_SIZE :: r.value.bootRom[i] == 0)
        && (forall i | |system| <= i < SYSTEM_ROM_SIZE :: r.value.systemRom[i] == 0)
        && forall i | 0 <= i < RAM_SIZE :: r.value.ram[i] == 0
    {
      if |boot| > BOOT_ROM_SIZE || |system| > SYSTEM_ROM_SIZE { return Err(PhysicalAccessOutOfBounds); }
      var memory := new PhysicalMemory(boot, system);
      return Ok(memory);
    }

    /** `read_u32`: four cells of the region that holds the address, lowest byte first. */
    method ReadWord(address: u32) returns (r: Result<u32, CoreError>)
      requires Valid()
      ensures r == ReadU32(Contents(), address)
    {
      hide FromLe32, RegionOf;
      var region := RegionOf(address);
      if region.None? || region.value.IsDevice() { return Err(UnmappedPhysicalAddress); }
      var offset := address - region.value.Extent().start;
      if offset + 4 > region.value.Extent().length { return Err(PhysicalAccessOutOfBounds); }
      var bytes :=
        if region.value.BootRom? then [bootRom[offset], bootRom[offset + 1], bootRom[offset + 2], bootRom[offset + 3]]
        else if region.value.SystemRom? then [systemRom[offset], systemRom[offset + 1], systemRom[offset + 2], systemRom[offset + 3]]
        else [ram[offset], ram[offset + 1], ram[offset + 2], ram[offset + 3]];
      FourCells(if region.value.BootRom? then bootRom else if region.value.SystemRom? then systemRom else ram[..], offset);
      assert bytes == Slice(Contents(), address, 4).value;
      return Ok(FromLe32(bytes));
    }

    /** `write_range`: copies `bytes` into RAM in place, or reports why it cannot. */
    method Store(address: u32, bytes: seq<u8>) returns (r: Result<(), CoreError>)
      requires Valid()
      modifies ram
      ensures match WriteRange(old(Contents()), address, bytes)
              case Ok(after) => r == Ok(()) && Contents() == after
              case Err(error) => r == Err(error) && Contents() == old(Contents())
    {
      hide RegionOf;
      var region := RegionOf(address);
      if region.None? { return Err(UnmappedPhysicalAddress); }
      if !region.value.Ram? { return Err(ImmutablePhysicalAddress); }
      var offset := address - RAM_BASE;
      if offset + |bytes| > ram.Length { return Err(PhysicalAccessOutOfBounds); }
      for i := 0 to |bytes|
        invariant forall k | 0 <= k < ram.Length ::
            ram[k] == if offset <= k < offset + i then bytes[k - offset] else old(ram[k])
      {
        ram[offset + i] := bytes[i];
      }
      assert ram[..] == Splice(old(ram[..]), offset, bytes);
      return Ok(());
    }
  }
}
