/** The reference loader: copies, zeroing and the boot-info record
    (crates/minemu-image/src/boot.rs). */
module Boot {
  import opened Platform
  import opened Bytes
  import opened Memory
  import opened Records
  import opened Validation
  import opened ImageFormat
  import opened Layout
  import opened ImagePack
  import opened ImageRoundTrip
  import opened ImageSoundness
  import opened WireFormat

  const BOOT_INFO_VADDR: u32 := 0xc000_7000
  const ZERO_PAGE_SIZE := 4096

  /** One initialized copy and the zeroing that follows it. */
  datatype BootCopy = BootCopy(physicalAddress: u32, bytes: seq<u8>, zeroedLength: nat) {
    /** Everything the copy leaves in RAM. */
    function Content(): seq<u8> { bytes + Zeros(zeroedLength) }

    predicate Fits() { 0 < |Content()| && InRam(physicalAddress, |Content()|) }
  }

  datatype BootPlan = BootPlan(
    copies: seq<BootCopy>, bootInfo: seq<u8>, bootInfoPaddr: u32, bootstrapEntry: u32, bootInfoVaddr: u32, kernelEntry: u32)

  function InfoOf(img: SystemImage): BootInfo {
    BootInfo(SYSTEM_ROM_BASE, img.header.imageSize, img.header.moduleTableOffset, img.header.moduleCount)
  }

  /** Slicing a segment's bytes out of the image does not panic. */
  predicate Sliceable(img: SystemImage, s: KernelSegment) { s.dataOffset + s.fileSize <= |img.bytes| }

  predicate Plannable(img: SystemImage) {
    forall i | 0 <= i < |img.kernelSegments| :: Sliceable(img, img.kernelSegments[i])
  }

  function CopyOf(img: SystemImage, s: KernelSegment): BootCopy
    requires Sliceable(img, s) && s.fileSize <= s.memorySize
  {
    BootCopy(s.physicalAddress, img.bytes[s.dataOffset..s.dataOffset + s.fileSize], s.memorySize - s.fileSize)
  }

  /** `boot_plan` of an image; `None` is the panic of an out-of-range slice, which the
      source leaves to its callers to avoid. */
  method MakePlan(img: SystemImage) returns (r: Option<BootPlan>)
    requires IsImage(img.bytes, img)
    ensures r.Some? <==> Plannable(img)
    ensures r.Some? ==> IsPlanOf(r.value, img)
  {
    hide DecodeHeader, KernelTable, ModuleTable, Packed, AllSpans, ValidKernelRecords;
    ImageRecordsValid(img);
    var copies: seq<BootCopy> := [];
    for i := 0 to |img.kernelSegments|
      invariant |copies| == i
      invariant forall k | 0 <= k < i :: Sliceable(img, img.kernelSegments[k]) && copies[k] == CopyOf(img, img.kernelSegments[k])
    {
      var s := img.kernelSegments[i];
      if s.dataOffset + s.fileSize > |img.bytes| { return None; }
      copies := copies + [BootCopy(s.physicalAddress, img.bytes[s.dataOffset..s.dataOffset + s.fileSize], s.memorySize - s.fileSize)];
    }
    var info := EncodeBootInfo(InfoOf(img));
    assert info.Some?;
    return Some(BootPlan(copies, info.value[..], BOOT_INFO_PADDR, BOOTSTRAP_ENTRY_PADDR, BOOT_INFO_VADDR, img.header.kernelEntry));
  }

  ghost predicate IsPlanOf(plan: BootPlan, img: SystemImage) {
    && |plan.copies| == |img.kernelSegments|
    && (forall i | 0 <= i < |plan.copies| ::
          && img.kernelSegments[i].fileSize <= img.kernelSegments[i].memorySize
          && Sliceable(img, img.kernelSegments[i]) && plan.copies[i] == CopyOf(img, img.kernelSegments[i]))
    && plan.bootInfo == Serialize(InfoOf(img).Words())
    && plan.bootInfoPaddr == BOOT_INFO_PADDR && plan.bootInfoVaddr == BOOT_INFO_VADDR
    && plan.bootstrapEntry == BOOTSTRAP_ENTRY_PADDR && plan.kernelEntry == img.header.kernelEntry
  }

  lemma ImageRecordsValid(img: SystemImage)
    requires IsImage(img.bytes, img)
    ensures InfoOf(img).Valid()
    ensures forall i | 0 <= i < |img.kernelSegments| :: img.kernelSegments[i].Valid()
  {
    HeaderIsValid(img.bytes, img.header);
    hide ValidKernelRecords, ModuleTable, Packed, AllSpans, DecodeHeader, Record;
    forall i | 0 <= i < |img.kernelSegments| ensures img.kernelSegments[i].Valid() {
      assert DecodeKernelSegment(Record(img.bytes, img.header.kernelTableOffset, i)) == Some(img.kernelSegments[i]);
    }
  }

  // ---- Applying a plan ----

  /** RAM after a sequence of writes. */
  function Written(ram: seq<u8>, writes: seq<(nat, seq<u8>)>): (r: seq<u8>)
    requires forall i | 0 <= i < |writes| :: writes[i].0 + |writes[i].1| <= |ram|
    ensures |r| == |ram|
    decreases |writes|
  {
    if writes == [] then ram
    else
      var last := writes[|writes| - 1];
      Splice(Written(ram, writes[..|writes| - 1]), last.0, last.1)
  }

  function WriteOf(c: BootCopy): (nat, seq<u8>)
    requires c.Fits()
  {
    (c.physicalAddress - RAM_BASE, c.Content())
  }

  function CopyWrites(copies: seq<BootCopy>): (w: seq<(nat, seq<u8>)>)
    requires forall i | 0 <= i < |copies| :: copies[i].Fits()
    ensures |w| == |copies| && forall i | 0 <= i < |w| :: w[i] == WriteOf(copies[i]) && w[i].0 + |w[i].1| <= RAM_SIZE
  {
    var w := seq(|copies|, i requires 0 <= i < |copies| => WriteOf(copies[i]));
    assert forall i | 0 <= i < |w| :: copies[i].Fits() && w[i] == WriteOf(copies[i]);
    w
  }

  lemma SpliceTwice(ram: seq<u8>, offset: nat, a: seq<u8>, b: seq<u8>)
    requires offset + |a| + |b| <= |ram|
    ensures Splice(Splice(ram, offset, a), offset + |a|, b) == Splice(ram, offset, a + b)
  {}

  lemma ZerosSplit(a: nat, b: nat)
    ensures Zeros(a) + Zeros(b) == Zeros(a + b)
  {}

  /** The `write` callback: `write_range` into RAM. */
  method Write(memory: PhysicalMemory, address: u32, bytes: seq<u8>) returns (ok: bool)
    requires memory.Valid()
    modifies memory.ram
    ensures RegionOf(address) == Some(MemRegion.Ram) && InRam(address, |bytes|) ==>
      ok && memory.ram[..] == Splice(old(memory.ram[..]), address - RAM_BASE, bytes)
  {
    hide Splice, RegionOf;
    var stored := memory.Store(address, bytes);
    ok := stored.Ok?;
  }

  /** What the zeroing loop has left after `done` bytes. */
  function PartlyZeroed(ram: seq<u8>, c: BootCopy, done: nat): seq<u8>
    requires c.Fits() && done <= c.zeroedLength && |ram| == RAM_SIZE
  {
    Splice(ram, c.physicalAddress - RAM_BASE, c.bytes + Zeros(done))
  }

  lemma ZeroMore(ram: seq<u8>, c: BootCopy, done: nat, count: nat)
    requires c.Fits() && done + count <= c.zeroedLength && |ram| == RAM_SIZE && 0 < count
    ensures var address := c.physicalAddress + |c.bytes| + done;
      && address < 0x1_0000_0000 && RegionOf(address) == Some(MemRegion.Ram) && InRam(address, count)
      && PartlyZeroed(ram, c, done + count)
      == Splice(PartlyZeroed(ram, c, done), address - RAM_BASE, Zeros(count))
  {
    hide Splice, Zeros, RegionOf;
    var offset := c.physicalAddress - RAM_BASE;
    InRamRegion(c.physicalAddress + |c.bytes| + done, count);
    SpliceTwice(ram, offset, c.bytes + Zeros(done), Zeros(count));
    ZerosSplit(done, count);
    assert (c.bytes + Zeros(done)) + Zeros(count) == c.bytes + (Zeros(done) + Zeros(count));
  }

  lemma ZeroNothing(ram: seq<u8>, c: BootCopy)
    requires c.Fits() && |ram| == RAM_SIZE
    ensures RegionOf(c.physicalAddress) == Some(MemRegion.Ram) && InRam(c.physicalAddress, |c.bytes|)
    ensures PartlyZeroed(ram, c, 0) == Splice(ram, c.physicalAddress - RAM_BASE, c.bytes)
  {
    InRamRegion(c.physicalAddress, |c.Content()|);
    assert c.bytes + Zeros(0) == c.bytes;
  }

  /** One copy: the bytes, then the zeroing loop in pages of 4096. */
  method ApplyCopy(c: BootCopy, memory: PhysicalMemory) returns (ok: bool)
    requires memory.Valid()
    modifies memory.ram
    ensures c.Fits() ==> ok && memory.ram[..] == PartlyZeroed(old(memory.ram[..]), c, c.zeroedLength)
  {
    hide RegionOf, Splice, PartlyZeroed, BootCopy.Fits;
    ghost var before, fits := memory.ram[..], c.Fits();
    if fits { ZeroNothing(before, c); }
    ok := Write(memory, c.physicalAddress, c.bytes);
    if !ok { return; }
    var address, remaining: nat := c.physicalAddress + |c.bytes|, c.zeroedLength;
    while remaining != 0
      invariant remaining <= c.zeroedLength && address == c.physicalAddress + |c.bytes| + (c.zeroedLength - remaining)
      invariant fits ==> memory.ram[..] == PartlyZeroed(before, c, c.zeroedLength - remaining)
    {
      var count := if remaining < ZERO_PAGE_SIZE then remaining else ZERO_PAGE_SIZE;
      if fits { ZeroMore(before, c, c.zeroedLength - remaining, count); }
      if address >= 0x1_0000_0000 { return false; }
      ok := Write(memory, address, Zeros(count));
      if !ok { return; }
      address, remaining := address + count, remaining - count;
    }
    ok := true;
  }

  lemma InRamRegion(address: u32, length: nat)
    requires InRam(address, length) && 0 < length
    ensures RegionOf(address) == Some(MemRegion.Ram)
  {}

  predicate PlanFits(plan: BootPlan) {
    && (forall i | 0 <= i < |plan.copies| :: plan.copies[i].Fits())
    && plan.bootInfo != [] && InRam(plan.bootInfoPaddr, |plan.bootInfo|)
  }

  /** Every write of a plan, each copy with its zeroing as one. */
  function PlanWrites(plan: BootPlan): (w: seq<(nat, seq<u8>)>)
    requires PlanFits(plan)
    ensures forall i | 0 <= i < |w| :: w[i].0 + |w[i].1| <= RAM_SIZE
  {
    CopyWrites(plan.copies) + [(plan.bootInfoPaddr - RAM_BASE, plan.bootInfo)]
  }

  /** RAM after the plan: all copies, then the boot-info record. */
  function AfterBoot(plan: BootPlan, ram: seq<u8>): seq<u8>
    requires PlanFits(plan) && |ram| == RAM_SIZE
  {
    Written(ram, PlanWrites(plan))
  }

  function AfterCopies(plan: BootPlan, ram: seq<u8>, i: nat): (r: seq<u8>)
    requires PlanFits(plan) && |ram| == RAM_SIZE && i <= |plan.copies|
    ensures |r| == RAM_SIZE
  {
    Written(ram, PlanWrites(plan)[..i])
  }

  lemma WrittenNext(ram: seq<u8>, writes: seq<(nat, seq<u8>)>, i: nat)
    requires i < |writes| && forall k | 0 <= k < |writes| :: writes[k].0 + |writes[k].1| <= |ram|
    ensures Written(ram, writes[..i + 1]) == Splice(Written(ram, writes[..i]), writes[i].0, writes[i].1)
  {
    assert writes[..i + 1][..i] == writes[..i];
  }

  lemma CopyStep(plan: BootPlan, ram: seq<u8>, i: nat)
    requires PlanFits(plan) && |ram| == RAM_SIZE && i < |plan.copies|
    ensures plan.copies[i].Fits()
    ensures AfterCopies(plan, ram, i + 1) == PartlyZeroed(AfterCopies(plan, ram, i), plan.copies[i], plan.copies[i].zeroedLength)
  {
    WrittenNext(ram, PlanWrites(plan), i);
    hide Splice, Written;
  }

  lemma InfoStep(plan: BootPlan, ram: seq<u8>)
    requires PlanFits(plan) && |ram| == RAM_SIZE
    ensures RegionOf(plan.bootInfoPaddr) == Some(MemRegion.Ram) && InRam(plan.bootInfoPaddr, |plan.bootInfo|)
    ensures AfterBoot(plan, ram)
         == Splice(AfterCopies(plan, ram, |plan.copies|), plan.bootInfoPaddr - RAM_BASE, plan.bootInfo)
  {
    InRamRegion(plan.bootInfoPaddr, |plan.bootInfo|);
    var all := PlanWrites(plan);
    WrittenNext(ram, all, |plan.copies|);
    assert all[..|all|] == all;
    hide Splice, Written;
  }

  lemma NoCopies(plan: BootPlan, ram: seq<u8>)
    requires PlanFits(plan) && |ram| == RAM_SIZE
    ensures AfterCopies(plan, ram, 0) == ram
  {}

  /** The loop over the copies. */
  method ApplyCopies(plan: BootPlan, memory: PhysicalMemory) returns (ok: bool)
    requires memory.Valid()
    modifies memory.ram
    ensures PlanFits(plan) ==> ok && memory.ram[..] == AfterCopies(plan, old(memory.ram[..]), |plan.copies|)
  {
    hide AfterCopies, PartlyZeroed, PlanFits, BootCopy.Fits;
    ghost var before, fits := memory.ram[..], PlanFits(plan);
    if fits { NoCopies(plan, before); }
    for i := 0 to |plan.copies|
      invariant fits ==> memory.ram[..] == AfterCopies(plan, before, i)
    {
      if fits { CopyStep(plan, before, i); }
      ok := ApplyCopy(plan.copies[i], memory);
      if !ok { return; }
    }
    ok := true;
  }

  /** `BootPlan::apply` with RAM as the write target; a failed write ends it early. */
  method Apply(plan: BootPlan, memory: PhysicalMemory) returns (ok: bool)
    requires memory.Valid()
    modifies memory.ram
    ensures PlanFits(plan) ==> ok && memory.ram[..] == AfterBoot(plan, old(memory.ram[..]))
  {
    hide AfterCopies, AfterBoot, PlanFits, RegionOf, Splice, InRam;
    ghost var before, fits := memory.ram[..], PlanFits(plan);
    if fits { InfoStep(plan, before); }
    ok := ApplyCopies(plan, memory);
    if !ok { return; }
    ok := Write(memory, plan.bootInfoPaddr, plan.bootInfo);
  }

  // ---- What booting leaves in RAM ----

  predicate Apart(a: (nat, seq<u8>), b: (nat, seq<u8>)) { a.0 + |a.1| <= b.0 || b.0 + |b.1| <= a.0 }

  /** The writes lie in RAM and do not touch each other. */
  ghost predicate Separate(ram: seq<u8>, writes: seq<(nat, seq<u8>)>) {
    && (forall k | 0 <= k < |writes| :: writes[k].0 + |writes[k].1| <= |ram|)
    && forall i, j | 0 <= i < j < |writes| :: Apart(writes[i], writes[j])
  }

  predicate Covers(write: (nat, seq<u8>), x: nat) { write.0 <= x < write.0 + |write.1| }

  lemma WrittenLast(ram: seq<u8>, writes: seq<(nat, seq<u8>)>)
    requires Separate(ram, writes) && writes != []
    ensures var n := |writes| - 1;
      && Separate(ram, writes[..n])
      && Written(ram, writes) == Splice(Written(ram, writes[..n]), writes[n].0, writes[n].1)
  {
    var n := |writes| - 1;
    assert forall k | 0 <= k < n :: writes[..n][k] == writes[k];
    hide Splice, Apart;
  }

  lemma LastShows(ram: seq<u8>, last: (nat, seq<u8>))
    requires last.0 + |last.1| <= |ram|
    ensures At(Splice(ram, last.0, last.1), last.0, last.1)
  {
    SpliceSlices(ram, last.0, last.1, 0, 0);
    hide Splice;
  }

  lemma EarlierStays(ram: seq<u8>, write: (nat, seq<u8>), last: (nat, seq<u8>))
    requires last.0 + |last.1| <= |ram| && At(ram, write.0, write.1) && Apart(write, last)
    ensures At(Splice(ram, last.0, last.1), write.0, write.1)
  {
    SpliceSlices(ram, last.0, last.1, write.0, write.0 + |write.1|);
    hide Splice;
  }

  /** A write is visible after those that follow it. */
  lemma {:induction false} WriteShows(ram: seq<u8>, writes: seq<(nat, seq<u8>)>, k: nat)
    requires Separate(ram, writes) && k < |writes|
    ensures At(Written(ram, writes), writes[k].0, writes[k].1)
    decreases |writes|
  {
    hide Splice, At, Apart, Written;
    var n := |writes| - 1;
    WrittenLast(ram, writes);
    var middle := Written(ram, writes[..n]);
    if k < n {
      WriteShows(ram, writes[..n], k);
      assert writes[..n][k] == writes[k] && Apart(writes[k], writes[n]);
      EarlierStays(middle, writes[k], writes[n]);
    } else {
      LastShows(middle, writes[n]);
    }
  }

  /** A byte that no write covers keeps its value. */
  lemma {:induction false} NothingElseChanges(ram: seq<u8>, writes: seq<(nat, seq<u8>)>, x: nat)
    requires Separate(ram, writes) && x < |ram| && forall k | 0 <= k < |writes| :: !Covers(writes[k], x)
    ensures Written(ram, writes)[x] == ram[x]
    decreases |writes|
  {
    if writes != [] {
      var n := |writes| - 1;
      WrittenLast(ram, writes);
      assert !Covers(writes[n], x);
      assert forall k | 0 <= k < n :: writes[..n][k] == writes[k];
      NothingElseChanges(ram, writes[..n], x);
      hide Written, Separate, Apart;
    }
  }

  /** Writes that do not touch each other all stay visible, in any order, and nothing else
      changes. */
  lemma DisjointWritesShow(ram: seq<u8>, writes: seq<(nat, seq<u8>)>)
    requires Separate(ram, writes)
    ensures forall k | 0 <= k < |writes| :: At(Written(ram, writes), writes[k].0, writes[k].1)
    ensures forall x | 0 <= x < |ram| && (forall k | 0 <= k < |writes| :: !Covers(writes[k], x)) :: Written(ram, writes)[x] == ram[x]
  {
    forall k | 0 <= k < |writes| ensures At(Written(ram, writes), writes[k].0, writes[k].1) {
      WriteShows(ram, writes, k);
    }
    forall x | 0 <= x < |ram| && forall k | 0 <= k < |writes| :: !Covers(writes[k], x)
      ensures Written(ram, writes)[x] == ram[x]
    {
      NothingElseChanges(ram, writes, x);
    }
    hide Written, At, Separate, Covers;
  }

  /** What a segment's copy writes, and where. */
  lemma CopyIsSegment(img: SystemImage, s: KernelSegment)
    requires Sliceable(img, s) && s.Valid()
    ensures var c := CopyOf(img, s);
      && c.Fits() && |c.Content()| == s.memorySize
      && WriteOf(c) == (s.physicalAddress - RAM_BASE, c.Content())
      && forall k | 0 <= k < s.memorySize :: c.Content()[k] == if k < s.fileSize then img.bytes[s.dataOffset + k] else 0
  {}

  ghost predicate AllValid(segments: seq<KernelSegment>) { forall i | 0 <= i < |segments| :: segments[i].Valid() }

  lemma PlanOfImageFits(img: SystemImage, plan: BootPlan)
    requires AllValid(img.kernelSegments) && IsPlanOf(plan, img)
    ensures PlanFits(plan)
  {
    hide KernelSegment.Valid, CopyOf, Serialize, BootCopy.Fits, Sliceable;
    forall i | 0 <= i < |plan.copies| ensures plan.copies[i].Fits() {
      assert plan.copies[i] == CopyOf(img, img.kernelSegments[i]);
      CopyIsSegment(img, img.kernelSegments[i]);
    }
  }

  lemma SegmentsApart(a: KernelSegment, b: KernelSegment, wa: (nat, seq<u8>), wb: (nat, seq<u8>))
    requires a.Valid() && b.Valid() && !PhysicalExtent(a).Overlaps(PhysicalExtent(b))
    requires wa.0 == a.physicalAddress - RAM_BASE && |wa.1| == a.memorySize
    requires wb.0 == b.physicalAddress - RAM_BASE && |wb.1| == b.memorySize
    ensures Apart(wa, wb)
  {}

  lemma SegmentClearOfInfo(a: KernelSegment, wa: (nat, seq<u8>), info: (nat, seq<u8>))
    requires a.Valid() && KernelPlaced(a)
    requires wa.0 == a.physicalAddress - RAM_BASE && |wa.1| == a.memorySize
    requires info.0 == BOOT_INFO_PADDR - RAM_BASE && |info.1| == BOOT_INFO_SIZE
    ensures Apart(wa, info)
  {}

  /** The writes of a plan for disjoint segments clear of the boot workspace do not meet. */
  lemma PlanWritesApart(img: SystemImage, plan: BootPlan)
    requires AllValid(img.kernelSegments) && IsPlanOf(plan, img) && PlanFits(plan)
    requires KernelRangesDisjoint(img.kernelSegments)
    requires forall i | 0 <= i < |img.kernelSegments| :: KernelPlaced(img.kernelSegments[i])
    ensures forall i, j | 0 <= i < j < |PlanWrites(plan)| :: Apart(PlanWrites(plan)[i], PlanWrites(plan)[j])
  {
    var writes, n, segments := PlanWrites(plan), |plan.copies|, img.kernelSegments;
    assert |plan.bootInfo| == BOOT_INFO_SIZE;
    hide KernelSegment.Valid, CopyOf, Serialize, BootCopy.Fits, Sliceable, Apart, KernelPlaced, PhysicalExtent, VirtualExtent,
         BootCopy.Content;
    forall i, j | 0 <= i < j < |writes| ensures Apart(writes[i], writes[j]) {
      assert plan.copies[i] == CopyOf(img, segments[i]);
      CopyIsSegment(img, segments[i]);
      if j < n {
        assert plan.copies[j] == CopyOf(img, segments[j]);
        CopyIsSegment(img, segments[j]);
        SegmentsApart(segments[i], segments[j], writes[i], writes[j]);
      } else {
        SegmentClearOfInfo(segments[i], writes[i], writes[j]);
      }
    }
  }

  /** RAM holds a segment: its initialized bytes from the image, then zeros. */
  ghost predicate SegmentLoaded(img: SystemImage, s: KernelSegment, ram: seq<u8>) {
    var low := s.physicalAddress - RAM_BASE;
    && s.Valid() && Sliceable(img, s) && |ram| == RAM_SIZE
    && forall x | low <= x < low + s.memorySize ::
         ram[x] == if x < low + s.fileSize then img.bytes[s.dataOffset + x - low] else 0
  }

  /** Address `RAM_BASE + x` is written by no segment and not part of boot info. */
  ghost predicate Unwritten(img: SystemImage, x: nat) {
    && !(BOOT_INFO_PADDR <= RAM_BASE + x < BOOT_INFO_PADDR + BOOT_INFO_SIZE)
    && forall i | 0 <= i < |img.kernelSegments| ::
         var s := img.kernelSegments[i]; !(s.physicalAddress <= RAM_BASE + x < s.physicalAddress + s.memorySize)
  }

  lemma WriteLoadsSegment(img: SystemImage, s: KernelSegment, ram: seq<u8>)
    requires s.Valid() && Sliceable(img, s) && |ram| == RAM_SIZE
    requires At(ram, s.physicalAddress - RAM_BASE, CopyOf(img, s).Content())
    ensures SegmentLoaded(img, s, ram)
  {
    CopyIsSegment(img, s);
    var low, content := s.physicalAddress - RAM_BASE, CopyOf(img, s).Content();
    hide CopyOf, BootCopy.Content;
    forall x | low <= x < low + s.memorySize
      ensures ram[x] == if x < low + s.fileSize then img.bytes[s.dataOffset + x - low] else 0
    {
      assert ram[x] == ram[low..low + |content|][x - low] == content[x - low];
    }
  }

  lemma UnwrittenByPlan(img: SystemImage, plan: BootPlan, x: nat)
    requires AllValid(img.kernelSegments) && IsPlanOf(plan, img) && PlanFits(plan) && Unwritten(img, x)
    ensures forall k | 0 <= k < |PlanWrites(plan)| :: !Covers(PlanWrites(plan)[k], x)
  {
    var writes := PlanWrites(plan);
    assert |plan.bootInfo| == BOOT_INFO_SIZE;
    hide KernelSegment.Valid, CopyOf, Serialize, BootCopy.Fits, Sliceable, BootCopy.Content;
    forall k | 0 <= k < |writes| ensures !Covers(writes[k], x) {
      if k < |plan.copies| {
        assert plan.copies[k] == CopyOf(img, img.kernelSegments[k]);
        CopyIsSegment(img, img.kernelSegments[k]);
      }
    }
  }

  lemma SegmentsAreLoaded(img: SystemImage, plan: BootPlan, after: seq<u8>)
    requires AllValid(img.kernelSegments) && IsPlanOf(plan, img) && PlanFits(plan) && |after| == RAM_SIZE
    requires forall k | 0 <= k < |PlanWrites(plan)| :: At(after, PlanWrites(plan)[k].0, PlanWrites(plan)[k].1)
    ensures forall i | 0 <= i < |img.kernelSegments| :: SegmentLoaded(img, img.kernelSegments[i], after)
  {
    hide Serialize, KernelSegment.Valid, CopyOf, BootCopy.Fits, BootCopy.Content, SegmentLoaded, At, Sliceable;
    var writes := PlanWrites(plan);
    forall i | 0 <= i < |plan.copies| ensures SegmentLoaded(img, img.kernelSegments[i], after) {
      assert plan.copies[i] == CopyOf(img, img.kernelSegments[i]) && At(after, writes[i].0, writes[i].1);
      CopyIsSegment(img, img.kernelSegments[i]);
      WriteLoadsSegment(img, img.kernelSegments[i], after);
    }
  }

  lemma InfoIsWritten(plan: BootPlan, after: seq<u8>)
    requires PlanFits(plan) && |after| == RAM_SIZE && |plan.bootInfo| == BOOT_INFO_SIZE && plan.bootInfoPaddr == BOOT_INFO_PADDR
    requires forall k | 0 <= k < |PlanWrites(plan)| :: At(after, PlanWrites(plan)[k].0, PlanWrites(plan)[k].1)
    ensures after[BOOT_INFO_PADDR - RAM_BASE..][..BOOT_INFO_SIZE] == plan.bootInfo
  {
    var w := PlanWrites(plan)[|plan.copies|];
    assert At(after, w.0, w.1);
    assert after[w.0..][..BOOT_INFO_SIZE] == after[w.0..w.0 + BOOT_INFO_SIZE];
  }

  /** The boot-info record in RAM, word by word: where the system ROM is, how long the image is,
      where its module table is and how many modules it has, and the direct map of RAM. */
  ghost predicate InfoInRam(img: SystemImage, ram: seq<u8>) {
    && |ram| == RAM_SIZE
    && Word(ram, 0x7000) == 0x4d42_4f4f && Word(ram, 0x7004) == 1 + 0x1_0000 * 64
    && Word(ram, 0x7008) == 0x0800_0000 && Word(ram, 0x700c) == img.header.imageSize
    && Word(ram, 0x7010) == img.header.moduleTableOffset && Word(ram, 0x7014) == img.header.moduleCount
    && Word(ram, 0x7018) == 0xc000_0000 && Word(ram, 0x701c) == 0x4000_0000 && Word(ram, 0x7020) == 0x0400_0000
    && ZerosAt(ram, 0x7024, 0x7040)
  }

  lemma DecodedInfoInRam(img: SystemImage, ram: seq<u8>)
    requires |ram| == RAM_SIZE && DecodeBootInfo(ram[BOOT_INFO_PADDR - RAM_BASE..][..BOOT_INFO_SIZE]) == Some(InfoOf(img))
    ensures InfoInRam(img, ram)
  {
    assert ram[BOOT_INFO_PADDR - RAM_BASE..][..BOOT_INFO_SIZE] == ram[0x7000..0x7000 + 64];
    BootInfoExactly(ram, 0x7000, InfoOf(img));
    hide DecodeBootInfo, Word, ZerosAt;
  }

  /** Booting a parsed image: in whatever RAM it starts from, every segment is loaded, boot
      info decodes to the header's values, and no other byte changes. */
  lemma BootIsFaithful(img: SystemImage, plan: BootPlan, ram: seq<u8>)
    requires IsImage(img.bytes, img) && IsPlanOf(plan, img) && |ram| == RAM_SIZE
    ensures PlanFits(plan)
    ensures forall i | 0 <= i < |img.kernelSegments| :: SegmentLoaded(img, img.kernelSegments[i], AfterBoot(plan, ram))
    ensures InfoInRam(img, AfterBoot(plan, ram))
    ensures var told := DecodeBootInfo(AfterBoot(plan, ram)[BOOT_INFO_PADDR - RAM_BASE..][..BOOT_INFO_SIZE]);
      && told.Some? && told.value.systemRomBase == 0x0800_0000 && told.value.imageSize == img.header.imageSize
      && told.value.moduleTableOffset == img.header.moduleTableOffset && told.value.moduleCount == img.header.moduleCount
    ensures forall x | 0 <= x < RAM_SIZE && Unwritten(img, x) :: AfterBoot(plan, ram)[x] == ram[x]
  {
    hide DecodeHeader, KernelTable, ModuleTable, Packed, AllSpans, KernelSegment.Valid, Serialize, DecodeBootInfo, Written, Apart, At,
         Covers, SegmentLoaded, Unwritten, PlanWrites, IsPlanOf, BootInfo.Valid, InfoInRam;
    ImageRecordsValid(img);
    BootInfoCodec(Serialize(InfoOf(img).Words()), InfoOf(img));
    PlanOfImageFits(img, plan);
    PlanWritesApart(img, plan);
    DisjointWritesShow(ram, PlanWrites(plan));
    SegmentsAreLoaded(img, plan, AfterBoot(plan, ram));
    PlanInfo(img, plan);
    InfoIsWritten(plan, AfterBoot(plan, ram));
    DecodedInfoInRam(img, AfterBoot(plan, ram));
    forall x | 0 <= x < RAM_SIZE && Unwritten(img, x) ensures AfterBoot(plan, ram)[x] == ram[x] {
      UnwrittenByPlan(img, plan, x);
    }
  }

  lemma PlanInfo(img: SystemImage, plan: BootPlan)
    requires IsPlanOf(plan, img)
    ensures plan.bootInfo == Serialize(InfoOf(img).Words()) && |plan.bootInfo| == BOOT_INFO_SIZE
    ensures plan.bootInfoPaddr == BOOT_INFO_PADDR
  {}

  // ---- When a plan can be made ----

  lemma PayloadIsInside(img: SystemImage, i: nat)
    requires IsImage(img.bytes, img) && i < |img.kernelSegments| && img.kernelSegments[i].fileSize != 0
    ensures Sliceable(img, img.kernelSegments[i])
  {
    hide Decodes, AllSpans, Packed;
    PackedPartFits(img, |img.bytes|, KernelPayload(i));
  }

  /** The parser does not look at the data offset of an empty payload, so a parsed image
      can be planned exactly when each of those offsets lies within the image. */
  lemma PlannableExactly(img: SystemImage)
    requires IsImage(img.bytes, img)
    ensures Plannable(img) <==>
      forall i | 0 <= i < |img.kernelSegments| && img.kernelSegments[i].fileSize == 0 ::
        img.kernelSegments[i].dataOffset <= |img.bytes|
  {
    forall i | 0 <= i < |img.kernelSegments| && img.kernelSegments[i].fileSize != 0
      ensures Sliceable(img, img.kernelSegments[i])
    {
      PayloadIsInside(img, i);
    }
    hide IsImage;
  }

  /** Every image the packer makes from records with in-image offsets, such as the zero
      offsets it starts from, can be planned. */
  lemma PackedIsPlannable(p: Input)
    requires Good(p) && SizesMatch(p)
    requires forall i | 0 <= i < |p.kernel| && p.kernel[i].data == [] :: p.kernel[i].record.dataOffset <= Total(p)
    ensures Plannable(Expected(p))
  {
    hide Total, Pack, IsImage, Good, SizesMatch, KernelDataOff, Zones, Start, ModulesSpans, HeaderOf, PlacedModule, PlacedSegments;
    GoodFits(p);
    PackedInputsAreAnImage(p);
    ZoneOffset(p, 0);
    EmptyRecordsKept(p);
    PlannableExactly(Expected(p));
  }

  lemma GoodFits(p: Input)
    requires Good(p)
    ensures Fits32(Total(p))
  {}

  lemma EmptyRecordsKept(p: Input)
    requires Fits32(Total(p)) && SizesMatch(p)
    ensures forall i | 0 <= i < |p.kernel| && PlacedKernels(p)[i].fileSize == 0 ::
              p.kernel[i].data == [] && PlacedKernels(p)[i] == p.kernel[i].record
  {
    hide Total, KernelDataOff;
  }
}
