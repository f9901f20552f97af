/** Machine integers, physical ranges and the fixed physical memory map
    (crates/minemu-platform/src/address.rs and mmap.rs). */
module Platform {
  type u8 = x: int | 0 <= x < 0x100
  type u32 = x: int | 0 <= x < 0x1_0000_0000

  datatype Option<+T> = None | Some(value: T)
  datatype Result<+T, +E> = Ok(value: T) | Err(error: E)

  datatype Access = Fetch | Read | Write

  const PAGE_SIZE: u32 := 4096
  const BOOT_ROM_BASE: u32 := 0
  const BOOT_ROM_SIZE: u32 := 0x1_0000
  const SYSTEM_ROM_BASE: u32 := 0x0800_0000
  const SYSTEM_ROM_SIZE: u32 := 0x0100_0000
  const RAM_BASE: u32 := 0x4000_0000
  const RAM_SIZE: u32 := 0x0400_0000
  const BOOT_STACK_BASE: u32 := 0x4000_6000
  const BOOT_STACK_SIZE: u32 := 4096
  const BOOT_INFO_PADDR: u32 := 0x4000_7000
  const BOOTSTRAP_ENTRY_PADDR: u32 := 0x4000_8000
  const DIRECT_MAP_BASE: u32 := 0xc000_0000
  const DIRECT_MAP_END: u32 := 0xc400_0000

  /** A half-open range of 32-bit addresses whose end may be 2^32. */
  datatype Range = Range(start: u32, length: u32) {
    function End(): int { start + length }

    predicate Contains(address: u32) { start <= address < End() }

    predicate ContainsRange(other: Range) { start <= other.start && other.End() <= End() }

    predicate Overlaps(other: Range) { start < other.End() && other.start < End() }
  }

  /** `PhysicalRange::new`: nonempty and not past the 32-bit address space. */
  function CheckedRange(start: u32, length: u32): (r: Option<Range>)
    ensures r.Some? <==> 0 < length && start + length <= 0x1_0000_0000
  {
    if length == 0 then None
    else if start + length > 0x1_0000_0000 then None
    else Some(Range(start, length))
  }

  datatype MemRegion =
    | BootRom | SystemRom | InterruptController | SysTick | Dma
    | Rng | Uart0 | Uart1 | Trace | Ram
  {
    function Extent(): Range {
      match this
      case BootRom => Range(BOOT_ROM_BASE, BOOT_ROM_SIZE)
      case SystemRom => Range(SYSTEM_ROM_BASE, SYSTEM_ROM_SIZE)
      case InterruptController => Range(0x1000_0000, PAGE_SIZE)
      case SysTick => Range(0x1000_1000, PAGE_SIZE)
      case Dma => Range(0x1000_2000, PAGE_SIZE)
      case Rng => Range(0x1000_3000, PAGE_SIZE)
      case Uart0 => Range(0x1000_4000, PAGE_SIZE)
      case Uart1 => Range(0x1000_5000, PAGE_SIZE)
      case Trace => Range(0x1000_f000, PAGE_SIZE)
      case Ram => Range(RAM_BASE, RAM_SIZE)
    }

    predicate IsDevice() { !BootRom? && !SystemRom? && !Ram? }
  }

  /** `Option::<MemRegion>::from`: the first listed region holding the address. */
  function RegionOf(address: u32): (r: Option<MemRegion>)
    ensures r.Some? ==> r.value.Extent().Contains(address)
  {
    if MemRegion.BootRom.Extent().Contains(address) then Some(MemRegion.BootRom)
    else if MemRegion.SystemRom.Extent().Contains(address) then Some(MemRegion.SystemRom)
    else if MemRegion.InterruptController.Extent().Contains(address) then Some(MemRegion.InterruptController)
    else if MemRegion.SysTick.Extent().Contains(address) then Some(MemRegion.SysTick)
    else if MemRegion.Dma.Extent().Contains(address) then Some(MemRegion.Dma)
    else if MemRegion.Rng.Extent().Contains(address) then Some(MemRegion.Rng)
    else if MemRegion.Uart0.Extent().Contains(address) then Some(MemRegion.Uart0)
    else if MemRegion.Uart1.Extent().Contains(address) then Some(MemRegion.Uart1)
    else if MemRegion.Trace.Extent().Contains(address) then Some(MemRegion.Trace)
    else if MemRegion.Ram.Extent().Contains(address) then Some(MemRegion.Ram)
    else None
  }

  /** The physical map in numbers. */
  lemma PhysicalMap(a: u32)
    ensures RegionOf(a) == Some(BootRom) <==> a < 0x1_0000
    ensures RegionOf(a) == Some(SystemRom) <==> 0x0800_0000 <= a < 0x0900_0000
    ensures RegionOf(a) == Some(InterruptController) <==> 0x1000_0000 <= a < 0x1000_1000
    ensures RegionOf(a) == Some(SysTick) <==> 0x1000_1000 <= a < 0x1000_2000
    ensures RegionOf(a) == Some(Dma) <==> 0x1000_2000 <= a < 0x1000_3000
    ensures RegionOf(a) == Some(Rng) <==> 0x1000_3000 <= a < 0x1000_4000
    ensures RegionOf(a) == Some(Uart0) <==> 0x1000_4000 <= a < 0x1000_5000
    ensures RegionOf(a) == Some(Uart1) <==> 0x1000_5000 <= a < 0x1000_6000
    ensures RegionOf(a) == Some(Trace) <==> 0x1000_f000 <= a < 0x1001_0000
    ensures RegionOf(a) == Some(Ram) <==> 0x4000_0000 <= a < 0x4400_0000
  {}

  /** `direct_map_physical`: the RAM address behind a higher-half alias. */
  function DirectMapPhysical(address: u32): (r: Option<u32>)
    ensures r.Some? ==> MemRegion.Ram.Extent().Contains(r.value)
  {
    if DIRECT_MAP_BASE <= address < DIRECT_MAP_END then Some(address - 0x8000_0000) else None
  }
}
