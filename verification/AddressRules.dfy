/** The address rules of a system image, in numbers: which bytes of the address spaces a kernel
    or module segment may hold (docs/platform/system-image-v1.md). */
module AddressRules {
  import opened Platform
  import opened Records
  import opened Validation
  import opened ImageFormat

  /** Address `a` is one of the `length` bytes from `start` on. */
  predicate In(a: int, start: int, length: int) { start <= a < start + length }

  /** The initialized bytes from `start` on are executable and hold the four bytes at `code`. */
  predicate HoldsCode(start: int, fileSize: int, flags: int, code: int) {
    flags / 4 % 2 == 1 && start <= code && code + 4 <= start + fileSize <= 0x1_0000_0000
  }

  lemma OverlapIsSharedAddress(r: Range, s: Range)
    requires r.length != 0 && s.length != 0
    ensures r.Overlaps(s) <==> exists a: int :: In(a, r.start, r.length) && In(a, s.start, s.length)
  {
    if r.Overlaps(s) {
      var a := if r.start < s.start then s.start else r.start;
      assert In(a, r.start, r.length) && In(a, s.start, s.length);
    }
  }

  // ---- Modules ----

  predicate InModuleSegment(a: int, s: ModuleSegment) { In(a, s.virtualAddress, s.memorySize) }

  predicate InDirectMap(a: int) { 0xc000_0000 <= a < 0xc400_0000 }

  ghost predicate ModuleSegmentPlaced(s: ModuleSegment) {
    s.virtualAddress + s.memorySize <= 0x1_0000_0000 && forall a | InModuleSegment(a, s) :: !InDirectMap(a)
  }

  ghost predicate ModuleSegmentsApart(s: ModuleSegment, t: ModuleSegment) {
    forall a | InModuleSegment(a, s) :: !InModuleSegment(a, t)
  }

  /** The rules for the segments and the entry of one module. */
  ghost predicate ModuleRules(segments: seq<ModuleSegment>, entry: int) {
    && entry % 4 == 0
    && (exists i | 0 <= i < |segments| :: HoldsCode(segments[i].virtualAddress, segments[i].fileSize, segments[i].flags, entry))
    && (forall i | 0 <= i < |segments| :: ModuleSegmentPlaced(segments[i]))
    && (forall i, j | 0 <= i < j < |segments| :: ModuleSegmentsApart(segments[i], segments[j]))
  }

  lemma PlacedModuleAddresses(s: ModuleSegment)
    requires s.memorySize != 0
    ensures ModulePlaced(s) <==> ModuleSegmentPlaced(s)
  {
    var direct := Range(0xc000_0000, 0x0400_0000);
    OverlapIsSharedAddress(ModuleExtent(s), direct);
    assert forall a :: InModuleSegment(a, s) <==> In(a, s.virtualAddress, s.memorySize);
    assert forall a :: InDirectMap(a) <==> In(a, direct.start, direct.length);
  }

  lemma ApartModuleAddresses(s: ModuleSegment, t: ModuleSegment)
    requires s.memorySize != 0 && t.memorySize != 0
    ensures !ModuleExtent(s).Overlaps(ModuleExtent(t)) <==> ModuleSegmentsApart(s, t)
  {
    OverlapIsSharedAddress(ModuleExtent(s), ModuleExtent(t));
    assert forall a :: InModuleSegment(a, s) <==> In(a, s.virtualAddress, s.memorySize);
    assert forall a :: InModuleSegment(a, t) <==> In(a, t.virtualAddress, t.memorySize);
  }

  /** Module records are accepted exactly when some executable segment holds the aligned entry
      instruction in its initialized bytes, no segment passes 2^32 or has an address in the
      kernel's direct map, and no address is in two segments. */
  lemma ModuleRecordsExactly(segments: seq<ModuleSegment>, entry: u32)
    requires forall i | 0 <= i < |segments| :: segments[i].memorySize != 0
    ensures ValidModuleRecords(segments, entry) <==> ModuleRules(segments, entry)
  {
    ModuleEntryExactly(segments, entry);
    forall i | 0 <= i < |segments| ensures ModulePlaced(segments[i]) <==> ModuleSegmentPlaced(segments[i]) {
      PlacedModuleAddresses(segments[i]);
    }
    forall i, j | 0 <= i < j < |segments|
      ensures !ModuleExtent(segments[i]).Overlaps(ModuleExtent(segments[j])) <==> ModuleSegmentsApart(segments[i], segments[j])
    {
      ApartModuleAddresses(segments[i], segments[j]);
    }
    hide ModulePlaced, ModuleExtent, ModuleSegmentPlaced, ModuleSegmentsApart, IsModuleEntry, HoldsCode, Range.Overlaps;
  }

  lemma ModuleEntryExactly(segments: seq<ModuleSegment>, entry: u32)
    ensures (exists s | s in segments :: IsModuleEntry(s, entry)) <==>
      exists i | 0 <= i < |segments| :: HoldsCode(segments[i].virtualAddress, segments[i].fileSize, segments[i].flags, entry)
  {
    assert forall s: ModuleSegment :: IsModuleEntry(s, entry) <==> HoldsCode(s.virtualAddress, s.fileSize, s.flags, entry);
    hide IsModuleEntry, HoldsCode;
    if i :| 0 <= i < |segments| && HoldsCode(segments[i].virtualAddress, segments[i].fileSize, segments[i].flags, entry) {
      assert segments[i] in segments && IsModuleEntry(segments[i], entry);
    }
    if s :| s in segments && IsModuleEntry(s, entry) {
      var i :| 0 <= i < |segments| && segments[i] == s;
      assert HoldsCode(segments[i].virtualAddress, segments[i].fileSize, segments[i].flags, entry);
    }
  }

  // ---- The kernel ----

  predicate InPhysical(a: int, s: KernelSegment) { In(a, s.physicalAddress, s.memorySize) }

  predicate InVirtual(a: int, s: KernelSegment) { In(a, s.virtualAddress, s.memorySize) }

  /** The stack page and the 64 bytes of boot info that the boot ROM uses. */
  predicate InWorkspace(a: int) { 0x4000_6000 <= a < 0x4000_7040 }

  ghost predicate KernelSegmentPlaced(s: KernelSegment) {
    && 0 < s.memorySize
    && s.physicalAddress + s.memorySize <= 0x1_0000_0000 && s.virtualAddress + s.memorySize <= 0x1_0000_0000
    && forall a | InPhysical(a, s) :: !InWorkspace(a)
  }

  ghost predicate KernelSegmentsApart(s: KernelSegment, t: KernelSegment) {
    (forall a | InPhysical(a, s) :: !InPhysical(a, t)) && forall a | InVirtual(a, s) :: !InVirtual(a, t)
  }

  /** The rules for the segments and the entry of the kernel. */
  ghost predicate KernelRules(segments: seq<KernelSegment>, entry: int) {
    && entry % 4 == 0
    && (exists i | 0 <= i < |segments| :: HoldsCode(segments[i].virtualAddress, segments[i].fileSize, segments[i].flags, entry))
    && (exists i | 0 <= i < |segments| :: HoldsCode(segments[i].physicalAddress, segments[i].fileSize, segments[i].flags, 0x4000_8000))
    && (forall i | 0 <= i < |segments| :: KernelSegmentPlaced(segments[i]))
    && (forall i, j | 0 <= i < j < |segments| :: KernelSegmentsApart(segments[i], segments[j]))
  }

  lemma PlacedKernelAddresses(s: KernelSegment)
    ensures KernelPlaced(s) <==> KernelSegmentPlaced(s)
  {
    var workspace := Range(0x4000_6000, 0x1040);
    if s.memorySize != 0 { OverlapIsSharedAddress(PhysicalExtent(s), workspace); }
    assert forall a :: InPhysical(a, s) <==> In(a, s.physicalAddress, s.memorySize);
    assert forall a :: InWorkspace(a) <==> In(a, workspace.start, workspace.length);
  }

  lemma ApartKernelAddresses(s: KernelSegment, t: KernelSegment)
    requires s.memorySize != 0 && t.memorySize != 0
    ensures !PhysicalExtent(s).Overlaps(PhysicalExtent(t)) && !VirtualExtent(s).Overlaps(VirtualExtent(t)) <==> KernelSegmentsApart(s, t)
  {
    OverlapIsSharedAddress(PhysicalExtent(s), PhysicalExtent(t));
    OverlapIsSharedAddress(VirtualExtent(s), VirtualExtent(t));
    assert forall a :: InPhysical(a, s) <==> In(a, s.physicalAddress, s.memorySize);
    assert forall a :: InPhysical(a, t) <==> In(a, t.physicalAddress, t.memorySize);
    assert forall a :: InVirtual(a, s) <==> In(a, s.virtualAddress, s.memorySize);
    assert forall a :: InVirtual(a, t) <==> In(a, t.virtualAddress, t.memorySize);
  }

  lemma KernelCodeExactly(segments: seq<KernelSegment>, entry: u32)
    ensures (exists s | s in segments :: IsKernelEntry(s, entry)) <==>
      exists i | 0 <= i < |segments| :: HoldsCode(segments[i].virtualAddress, segments[i].fileSize, segments[i].flags, entry)
    ensures (exists s | s in segments :: IsBootstrap(s)) <==>
      exists i | 0 <= i < |segments| :: HoldsCode(segments[i].physicalAddress, segments[i].fileSize, segments[i].flags, 0x4000_8000)
  {
    assert forall s: KernelSegment :: IsKernelEntry(s, entry) <==> HoldsCode(s.virtualAddress, s.fileSize, s.flags, entry);
    assert forall s: KernelSegment :: IsBootstrap(s) <==> HoldsCode(s.physicalAddress, s.fileSize, s.flags, 0x4000_8000);
    hide IsKernelEntry, IsBootstrap, HoldsCode;
    if i :| 0 <= i < |segments| && HoldsCode(segments[i].virtualAddress, segments[i].fileSize, segments[i].flags, entry) {
      assert segments[i] in segments && IsKernelEntry(segments[i], entry);
    }
    if s :| s in segments && IsKernelEntry(s, entry) {
      var i :| 0 <= i < |segments| && segments[i] == s;
      assert HoldsCode(segments[i].virtualAddress, segments[i].fileSize, segments[i].flags, entry);
    }
    if i :| 0 <= i < |segments| && HoldsCode(segments[i].physicalAddress, segments[i].fileSize, segments[i].flags, 0x4000_8000) {
      assert segments[i] in segments && IsBootstrap(segments[i]);
    }
    if s :| s in segments && IsBootstrap(s) {
      var i :| 0 <= i < |segments| && segments[i] == s;
      assert HoldsCode(segments[i].physicalAddress, segments[i].fileSize, segments[i].flags, 0x4000_8000);
    }
  }

  lemma KernelPlacesExactly(segments: seq<KernelSegment>)
    ensures (forall i | 0 <= i < |segments| :: KernelPlaced(segments[i]))
       <==> forall i | 0 <= i < |segments| :: KernelSegmentPlaced(segments[i])
  {
    forall i | 0 <= i < |segments| ensures KernelPlaced(segments[i]) <==> KernelSegmentPlaced(segments[i]) {
      PlacedKernelAddresses(segments[i]);
    }
    hide KernelPlaced, KernelSegmentPlaced;
  }

  lemma KernelRangesExactly(segments: seq<KernelSegment>)
    requires forall i | 0 <= i < |segments| :: segments[i].memorySize != 0
    ensures KernelRangesDisjoint(segments) <==> forall i, j | 0 <= i < j < |segments| :: KernelSegmentsApart(segments[i], segments[j])
  {
    forall i, j | 0 <= i < j < |segments|
      ensures !PhysicalExtent(segments[i]).Overlaps(PhysicalExtent(segments[j]))
         && !VirtualExtent(segments[i]).Overlaps(VirtualExtent(segments[j]))
         <==> KernelSegmentsApart(segments[i], segments[j])
    {
      ApartKernelAddresses(segments[i], segments[j]);
    }
    hide PhysicalExtent, VirtualExtent, KernelSegmentsApart, Range.Overlaps;
  }

  /** Kernel records are accepted exactly when executable initialized bytes hold the aligned entry
      instruction at its virtual and the bootstrap instruction at its physical address, no
      segment is empty, passes 2^32 or has an address in the boot workspace, and no physical or
      virtual address is in two segments. */
  lemma KernelRecordsExactly(segments: seq<KernelSegment>, entry: u32)
    ensures ValidKernelRecords(segments, entry) <==> KernelRules(segments, entry)
  {
    KernelCodeExactly(segments, entry);
    KernelPlacesExactly(segments);
    if forall i | 0 <= i < |segments| :: KernelSegmentPlaced(segments[i]) {
      forall i | 0 <= i < |segments| ensures segments[i].memorySize != 0 { assert KernelSegmentPlaced(segments[i]); }
      KernelRangesExactly(segments);
    }
    hide KernelPlaced, KernelRangesDisjoint, KernelSegmentPlaced, KernelSegmentsApart, IsKernelEntry, IsBootstrap, HoldsCode;
  }

  // ---- Accepted images ----

  /** In an accepted image no address of a module is in the kernel's direct map, and none is in
      two of the module's segments. */
  lemma ModuleAddressesInImage(img: SystemImage, m: nat, i: nat, a: int)
    requires IsImage(img.bytes, img) && m < |img.modules| && i < |img.modules[m].segments|
    requires InModuleSegment(a, img.modules[m].segments[i])
    ensures 0 <= a < 0x1_0000_0000 && !InDirectMap(a)
    ensures forall j | 0 <= j < |img.modules[m].segments| && j != i :: !InModuleSegment(a, img.modules[m].segments[j])
  {
    hide DecodeHeader, KernelTable, ValidKernelRecords, ValidModuleRecords, DecodeModuleRecord, ValidUtf8, Packed, AllSpans, DistinctNames,
         Record;
    var owner := img.modules[m];
    assert IsModule(img.bytes, Record(img.bytes, img.header.moduleTableOffset, m), owner);
    SegmentsHaveMemory(img.bytes, owner.record.segmentTableOffset, owner.segments);
    ModuleRecordsExactly(owner.segments, owner.record.entry);
    assert ModuleSegmentPlaced(owner.segments[i]);
    forall j | 0 <= j < |owner.segments| && j != i ensures !InModuleSegment(a, owner.segments[j]) {
      var low, high := if i < j then i else j, if i < j then j else i;
      assert ModuleSegmentsApart(owner.segments[low], owner.segments[high]);
    }
  }

  lemma SegmentsHaveMemory(bytes: seq<u8>, table: nat, segments: seq<ModuleSegment>)
    requires SegmentTable(bytes, table, segments)
    ensures forall i | 0 <= i < |segments| :: segments[i].memorySize != 0
  {
    forall i | 0 <= i < |segments| ensures segments[i].memorySize != 0 {
      assert DecodeModuleSegment(Record(bytes, table, i)) == Some(segments[i]);
    }
  }

  /** In an accepted image no physical or virtual address is in two kernel segments, and no
      physical one in the boot workspace or outside RAM. */
  lemma KernelAddressesInImage(img: SystemImage, i: nat, a: int)
    requires IsImage(img.bytes, img) && i < |img.kernelSegments|
    ensures InPhysical(a, img.kernelSegments[i]) ==>
      && 0x4000_0000 <= a < 0x4400_0000 && !InWorkspace(a)
      && forall j | 0 <= j < |img.kernelSegments| && j != i :: !InPhysical(a, img.kernelSegments[j])
    ensures InVirtual(a, img.kernelSegments[i]) ==>
      forall j | 0 <= j < |img.kernelSegments| && j != i :: !InVirtual(a, img.kernelSegments[j])
  {
    hide DecodeHeader, ValidKernelRecords, ModuleTable, Packed, AllSpans, Record;
    KernelRecordsExactly(img.kernelSegments, img.header.kernelEntry);
    assert KernelSegmentPlaced(img.kernelSegments[i]);
    assert DecodeKernelSegment(Record(img.bytes, img.header.kernelTableOffset, i)) == Some(img.kernelSegments[i]);
    forall j | 0 <= j < |img.kernelSegments| && j != i
      ensures !(InPhysical(a, img.kernelSegments[i]) && InPhysical(a, img.kernelSegments[j]))
      ensures !(InVirtual(a, img.kernelSegments[i]) && InVirtual(a, img.kernelSegments[j]))
    {
      var low, high := if i < j then i else j, if i < j then j else i;
      assert KernelSegmentsApart(img.kernelSegments[low], img.kernelSegments[high]);
    }
  }
}
