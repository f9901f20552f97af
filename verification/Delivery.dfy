/** End to end: what the ELF files hold is what the packaged image holds, and what RAM holds
    once the image is booted (crates/minemu-image/src/lib.rs, format.rs and boot.rs). */
module Delivery {
  import opened Platform
  import opened Records
  import opened Validation
  import opened ImageFormat
  import opened Layout
  import opened ImagePack
  import opened ImageRoundTrip
  import opened Boot
  import opened Builder
  import opened Sorting

  /** Where a kernel segment goes in RAM: RAM addresses and their direct-map aliases. */
  function LoadOffset(address: u32): int {
    if 0x4000_0000 <= address < 0x4400_0000 then address - 0x4000_0000 else address - 0xc000_0000
  }

  /** RAM holds a kernel segment at its load address: its file bytes, then zeros. */
  ghost predicate Resident(s: ElfSegment, ram: seq<u8>) {
    var low := LoadOffset(s.address);
    && 0 <= low && |s.bytes| <= s.memorySize && low + s.memorySize <= |ram| && At(ram, low, s.bytes)
    && forall x | low + |s.bytes| <= x < low + s.memorySize :: ram[x] == 0
  }

  /** A module's segment, described by record `r`, whose payload is in the image. */
  ghost predicate Carries(bytes: seq<u8>, r: ModuleSegment, s: ElfSegment) {
    && r.virtualAddress == s.address && r.fileSize == |s.bytes| && r.memorySize == s.memorySize && r.flags == s.flags
    && (s.bytes != [] ==> At(bytes, r.dataOffset, s.bytes))
  }

  ghost predicate CarriesModule(img: SystemImage, m: ImageModule, n: NamedElf) {
    && m.name == n.name && m.record.entry == n.elf.entry && |m.segments| == |n.elf.segments|
    && forall i | 0 <= i < |n.elf.segments| :: CarriesSegment(img, m, n.elf.segments[i])
  }

  ghost predicate CarriesSegment(img: SystemImage, m: ImageModule, s: ElfSegment) {
    exists j | 0 <= j < |m.segments| :: Carries(img.bytes, m.segments[j], s)
  }

  ghost predicate Contains(img: SystemImage, n: NamedElf) {
    exists m | 0 <= m < |img.modules| :: CarriesModule(img, img.modules[m], n)
  }

  /** Every element of a list appears in its sorted conversion. */
  lemma SortedHolds<A, B>(f: A -> Option<B>, s: seq<A>, le: (B, B) -> bool, k: nat) returns (i: nat)
    requires Collect(f, s).Some? && k < |s|
    ensures i < |s| && f(s[k]) == Some(Sort(Collect(f, s).value, le)[i])
  {
    var b := Collect(f, s).value[k];
    assert b in multiset(Collect(f, s).value);
    assert b in multiset(Sort(Collect(f, s).value, le));
    i :| 0 <= i < |s| && Sort(Collect(f, s).value, le)[i] == b;
  }

  lemma PlacedKernelFound(p: Input, i: nat)
    requires Fits32(ImagePack.Total(p)) && SizesMatch(p) && i < |p.kernel|
    ensures PlacedKernel(p, i).(dataOffset := 0) == p.kernel[i].record.(dataOffset := 0)
    ensures p.kernel[i].data != [] ==> At(Pack(p), PlacedKernel(p, i).dataOffset, p.kernel[i].data)
  {
    hide SizesMatch, Pack, At, ImagePack.Total, KernelDataOff;
    PayloadsAreFound(p);
  }

  lemma LoadedIsResident(img: SystemImage, r: KernelSegment, s: ElfSegment, ram: seq<u8>)
    requires KernelInputOf(s).Some? && r.(dataOffset := 0) == KernelInputOf(s).value.record
    requires s.bytes != [] ==> At(img.bytes, r.dataOffset, s.bytes)
    requires SegmentLoaded(img, r, ram)
    ensures Resident(s, ram)
  {
    var low: nat := LoadAddress(s.address).value - RAM_BASE;
    assert low == LoadOffset(s.address);
    forall x | 0 <= x < |s.bytes| ensures ram[low + x] == s.bytes[x] {
      assert ram[low + x] == img.bytes[r.dataOffset + x];
      assert img.bytes[r.dataOffset..r.dataOffset + |s.bytes|][x] == s.bytes[x];
    }
    assert At(ram, low, s.bytes);
  }

  /** Booting a packaged image, from whatever RAM held before, leaves every segment of the
      kernel's ELF file resident at its load address. */
  lemma KernelIsDelivered(kernel: Elf, modules: seq<NamedElf>, plan: BootPlan, ram: seq<u8>)
    requires Packaged(kernel, modules).Some? && IsPlanOf(plan, Packaged(kernel, modules).value) && |ram| == RAM_SIZE
    ensures PlanFits(plan)
    ensures forall k | 0 <= k < |kernel.segments| :: Resident(kernel.segments[k], AfterBoot(plan, ram))
  {
    hide Good, SizesMatch, IsImage, IsPlanOf, Sort, Collect, ModuleInputOf, Resident, SegmentLoaded, Pack, AfterBoot,
         PlanFits, HeaderOf, ParsedModules, PlacedKernel, KernelSegment.Valid, At, ImagePack.Total;
    var p := Prepared(kernel, modules).value;
    GoodFits(p);
    PreparedSizesMatch(kernel, modules, p);
    PackedInputsAreAnImage(p);
    BootIsFaithful(Expected(p), plan, ram);
    forall k | 0 <= k < |kernel.segments| ensures Resident(kernel.segments[k], AfterBoot(plan, ram)) {
      var i := SortedHolds(KernelInputOf, kernel.segments, ByKernelAddress, k);
      PlacedKernelFound(p, i);
      assert Expected(p).kernelSegments[i] == PlacedKernel(p, i);
      LoadedIsResident(Expected(p), PlacedKernel(p, i), kernel.segments[k], AfterBoot(plan, ram));
    }
  }

  /** The record of a kernel segment. */
  ghost predicate Specifies(r: KernelSegment, s: ElfSegment) {
    && r.virtualAddress == s.address && r.physicalAddress == 0x4000_0000 + LoadOffset(s.address)
    && r.fileSize == |s.bytes| && r.memorySize == s.memorySize && r.flags == s.flags
  }

  ghost predicate RecordsSegment(img: SystemImage, s: ElfSegment) {
    exists i | 0 <= i < |img.kernelSegments| :: Specifies(img.kernelSegments[i], s)
  }

  lemma InputRecords(r: KernelSegment, s: ElfSegment)
    requires KernelInputOf(s).Some? && r.(dataOffset := 0) == KernelInputOf(s).value.record.(dataOffset := 0)
    ensures Specifies(r, s)
  {}

  /** A packaged image has the kernel's entry and one record per segment, with the addresses,
      sizes and flags of the ELF file. */
  lemma KernelIsRecorded(kernel: Elf, modules: seq<NamedElf>)
    requires Packaged(kernel, modules).Some?
    ensures var img := Packaged(kernel, modules).value;
      && img.header.kernelEntry == kernel.entry && |img.kernelSegments| == |kernel.segments|
      && forall k | 0 <= k < |kernel.segments| :: RecordsSegment(img, kernel.segments[k])
  {
    hide Good, SizesMatch, Sort, Collect, ModuleInputOf, KernelInputOf, Pack, ParsedModules, PlacedKernel, At, ImagePack.Total, Specifies;
    var p, img := Prepared(kernel, modules).value, Packaged(kernel, modules).value;
    GoodFits(p);
    PreparedSizesMatch(kernel, modules, p);
    forall k | 0 <= k < |kernel.segments| ensures RecordsSegment(img, kernel.segments[k]) {
      var i := SortedHolds(KernelInputOf, kernel.segments, ByKernelAddress, k);
      PlacedKernelFound(p, i);
      InputRecords(PlacedKernel(p, i), kernel.segments[k]);
      assert img.kernelSegments[i] == PlacedKernel(p, i);
    }
  }

  /** A packaged image can always be planned. */
  lemma PackagedIsPlannable(kernel: Elf, modules: seq<NamedElf>)
    requires Packaged(kernel, modules).Some?
    ensures Plannable(Packaged(kernel, modules).value)
  {
    hide Good, SizesMatch, Sort, Collect, ModuleInputOf, Pack, HeaderOf, ParsedModules, PlacedKernels, Plannable, ImagePack.Total,
         KernelSegment.Valid;
    var p := Prepared(kernel, modules).value;
    PreparedSizesMatch(kernel, modules, p);
    forall i | 0 <= i < |p.kernel| ensures p.kernel[i].record.dataOffset == 0 {
      var k := SortedComesFrom(KernelInputOf, kernel.segments, ByKernelAddress, i);
    }
    PackedIsPlannable(p);
  }

  lemma PlacedIsCarried(p: Input, m: nat, j: nat, s: ElfSegment)
    requires Fits32(ImagePack.Total(p)) && SizesMatch(p) && m < |p.modules| && j < |p.modules[m].segments|
    requires SegmentInputOf(s) == Some(p.modules[m].segments[j])
    ensures Carries(Pack(p), PlacedSegment(p, m, j), s)
  {
    hide SizesMatch, Pack, At, ImagePack.Total, SegmentDataOff, ModuleSegment.Valid;
    PayloadsAreFound(p);
  }

  lemma ModuleIsCarried(p: Input, m: nat, n: NamedElf)
    requires Fits32(ImagePack.Total(p)) && SizesMatch(p) && m < |p.modules| && ModuleInputOf(n) == Some(p.modules[m])
    ensures CarriesModule(Expected(p), ParsedModules(p)[m], n)
  {
    hide SizesMatch, Pack, Sort, Collect, ImagePack.Total, At, PlacedSegment, SegmentInputOf, ValidModuleRecords, NameOff,
         SegmentTableOff, HeaderOf, PlacedKernels, Carries;
    var parsed := ParsedModules(p)[m];
    forall i | 0 <= i < |n.elf.segments|
      ensures CarriesSegment(Expected(p), parsed, n.elf.segments[i])
    {
      var j := SortedHolds(SegmentInputOf, n.elf.segments, BySegmentAddress, i);
      PlacedIsCarried(p, m, j, n.elf.segments[i]);
      assert parsed.segments[j] == PlacedSegment(p, m, j);
    }
  }

  /** Every module is in the packaged image under its name and entry, with every segment's
      bytes at the offset its record gives. */
  lemma ModulesAreDelivered(kernel: Elf, modules: seq<NamedElf>)
    requires Packaged(kernel, modules).Some?
    ensures var img := Packaged(kernel, modules).value;
      |img.modules| == |modules| && forall i | 0 <= i < |modules| :: Contains(img, modules[i])
  {
    hide Good, SizesMatch, Sort, Collect, KernelInputOf, ModuleInputOf, Pack, HeaderOf, CarriesModule, PlacedKernels;
    var p, img := Prepared(kernel, modules).value, Packaged(kernel, modules).value;
    GoodFits(p);
    PreparedSizesMatch(kernel, modules, p);
    forall i | 0 <= i < |modules| ensures Contains(img, modules[i]) {
      var m := SortedHolds(ModuleInputOf, modules, ByName, i);
      ModuleIsCarried(p, m, modules[i]);
      assert img.modules[m] == ParsedModules(p)[m];
    }
  }
}
