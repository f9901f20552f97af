/** Cross-record checks of kernel and module segments
    (crates/minemu-image/src/validation.rs). */
module Validation {
  import opened Platform
  import opened Records

  const A32_INSTRUCTION_SIZE := 4

  /** The stack and boot-info page that the boot ROM uses. */
  const BOOT_WORKSPACE := Range(BOOT_STACK_BASE, BOOT_STACK_SIZE + BOOT_INFO_SIZE)

  /** `AddressRange::new`: a possibly empty range inside the 32-bit address space. */
  predicate InAddressSpace(r: Range) { r.End() <= 0x1_0000_0000 }

  /** `AddressRange::contains`: the complete instruction at `entry`. */
  predicate HoldsInstruction(r: Range, entry: u32) {
    r.start <= entry && entry + A32_INSTRUCTION_SIZE <= r.End()
  }

  function PhysicalExtent(s: KernelSegment): Range { Range(s.physicalAddress, s.memorySize) }

  function VirtualExtent(s: KernelSegment): Range { Range(s.virtualAddress, s.memorySize) }

  function ModuleExtent(s: ModuleSegment): Range { Range(s.virtualAddress, s.memorySize) }

  /** The initialized executable bytes of a kernel segment hold the instruction at `entry`. */
  predicate IsKernelEntry(s: KernelSegment, entry: u32) {
    var r := Range(s.virtualAddress, s.fileSize);
    s.Executable() && InAddressSpace(r) && HoldsInstruction(r, entry)
  }

  predicate IsBootstrap(s: KernelSegment) {
    var r := CheckedRange(s.physicalAddress, s.fileSize);
    s.Executable() && r.Some? && r.value.ContainsRange(Range(BOOTSTRAP_ENTRY_PADDR, A32_INSTRUCTION_SIZE))
  }

  predicate IsModuleEntry(s: ModuleSegment, entry: u32) {
    var r := Range(s.virtualAddress, s.fileSize);
    s.Executable() && InAddressSpace(r) && HoldsInstruction(r, entry)
  }

  predicate KernelRangesDisjoint(segments: seq<KernelSegment>) {
    forall i, j | 0 <= i < j < |segments| ::
      && !PhysicalExtent(segments[i]).Overlaps(PhysicalExtent(segments[j]))
      && !VirtualExtent(segments[i]).Overlaps(VirtualExtent(segments[j]))
  }

  predicate KernelPlaced(s: KernelSegment) {
    && CheckedRange(s.physicalAddress, s.memorySize).Some?
    && !PhysicalExtent(s).Overlaps(BOOT_WORKSPACE)
    && InAddressSpace(VirtualExtent(s))
  }

  /** `validate_kernel_records` returns without error. */
  predicate ValidKernelRecords(segments: seq<KernelSegment>, entry: u32) {
    && entry % 4 == 0
    && (exists s | s in segments :: IsKernelEntry(s, entry))
    && (exists s | s in segments :: IsBootstrap(s))
    && (forall i | 0 <= i < |segments| :: KernelPlaced(segments[i]))
    && KernelRangesDisjoint(segments)
  }

  predicate ModuleRangesDisjoint(segments: seq<ModuleSegment>) {
    forall i, j | 0 <= i < j < |segments| :: !ModuleExtent(segments[i]).Overlaps(ModuleExtent(segments[j]))
  }

  predicate ModulePlaced(s: ModuleSegment) {
    && InAddressSpace(ModuleExtent(s))
    && !ModuleExtent(s).Overlaps(Range(DIRECT_MAP_BASE, RAM_SIZE))
  }

  /** `validate_module_records` returns without error. */
  predicate ValidModuleRecords(segments: seq<ModuleSegment>, entry: u32) {
    && entry % 4 == 0
    && (exists s | s in segments :: IsModuleEntry(s, entry))
    && (forall i | 0 <= i < |segments| :: ModulePlaced(segments[i]))
    && ModuleRangesDisjoint(segments)
  }
}
