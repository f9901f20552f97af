/** What the builder accepts and in which order it packs
    (crates/minemu-image/src/lib.rs, docs/platform/system-image-v1.md). */
module Packaging {
  import opened Platform
  import opened Memory
  import opened Records
  import opened Validation
  import opened ImageFormat
  import opened Layout
  import opened ImagePack
  import opened ImageRoundTrip
  import opened Boot
  import opened Builder
  import opened Delivery
  import opened Sorting

  // ---- Which segments convert ----

  /** A kernel segment converts exactly when its load range, at its RAM address or behind its
      direct-map address, lies in RAM, its memory holds its bytes and its flags are three bits. */
  lemma KernelSegmentConverts(s: ElfSegment)
    ensures KernelInputOf(s).Some? <==>
      && (0x4000_0000 <= s.address < 0x4400_0000 || 0xc000_0000 <= s.address < 0xc400_0000)
      && 0 < s.memorySize && LoadOffset(s.address) + s.memorySize <= 0x0400_0000
      && |s.bytes| <= s.memorySize && s.flags <= 7
  {}

  lemma ModuleSegmentConverts(s: ElfSegment)
    ensures SegmentInputOf(s).Some? <==> 0 < s.memorySize && |s.bytes| <= s.memorySize && s.flags <= 7
  {}

  // ---- What the builder accepts ----

  /** A module converted and sorted, with nothing checked across its segments. */
  function Unchecked(n: NamedElf): Option<ModuleInput> {
    var segments := Collect(SegmentInputOf, n.elf.segments);
    if segments.None? then None else Some(ModuleInput(n.name, n.elf.entry, Sort(segments.value, BySegmentAddress)))
  }

  /** What the builder would pack, if it checked nothing but single segments. */
  function Candidate(kernel: Elf, modules: seq<NamedElf>): Option<Input> {
    var k, ms := Collect(KernelInputOf, kernel.segments), Collect(Unchecked, modules);
    if k.None? || ms.None? then None
    else Some(Input(kernel.entry, Sort(k.value, ByKernelAddress), Sort(ms.value, ByName)))
  }

  /** The candidate, packed, is an image. */
  ghost predicate MakesImage(p: Input) { Fits32(ImagePack.Total(p)) && IsImage(Pack(p), Expected(p)) }

  lemma SameConversion(modules: seq<NamedElf>)
    requires forall i | 0 <= i < |modules| :: Unchecked(modules[i]).Some? && ModuleInputOf(modules[i]) == Unchecked(modules[i])
    ensures Collect(Unchecked, modules).Some? && Collect(ModuleInputOf, modules) == Collect(Unchecked, modules)
  {
    hide ModuleInputOf, Unchecked, Collect;
    assert Collect(ModuleInputOf, modules).value == Collect(Unchecked, modules).value;
  }

  lemma PreparedIsCandidate(kernel: Elf, modules: seq<NamedElf>)
    requires Prepared(kernel, modules).Some?
    ensures Candidate(kernel, modules) == Prepared(kernel, modules)
  {
    hide KernelInputOf, SegmentInputOf, ValidModuleRecords, Sort;
    forall i | 0 <= i < |modules| ensures Unchecked(modules[i]).Some? && ModuleInputOf(modules[i]) == Unchecked(modules[i]) {
      assert ModuleInputOf(modules[i]).Some?;
    }
    SameConversion(modules);
    hide Collect;
  }

  lemma CandidateRecordsValid(kernel: Elf, modules: seq<NamedElf>, p: Input)
    requires Candidate(kernel, modules) == Some(p)
    ensures AllRecordsValid(p)
  {
    hide Sort, Collect, KernelSegment.Valid, ModuleSegment.Valid;
    forall i | 0 <= i < |p.kernel| ensures p.kernel[i].record.Valid() {
      var k := SortedComesFrom(KernelInputOf, kernel.segments, ByKernelAddress, i);
    }
    forall m, j | 0 <= m < |p.modules| && 0 <= j < |p.modules[m].segments| ensures p.modules[m].segments[j].record.Valid() {
      var k := SortedComesFrom(Unchecked, modules, ByName, m);
      var l := SortedComesFrom(SegmentInputOf, modules[k].elf.segments, BySegmentAddress, j);
    }
  }

  lemma ImageHeaderFits(p: Input)
    requires MakesImage(p)
    ensures HeaderFits(p)
  {
    hide Pack, ImagePack.Total, DecodeHeader, KernelTable, ModuleTable, ValidKernelRecords, AllSpans, Packed, ImageHeader.Valid;
    HeaderIsValid(Pack(p), HeaderOf(p));
    HeaderFitsIsValid(p);
  }

  lemma GoodModuleConverts(n: NamedElf)
    requires Unchecked(n).Some? && GoodModule(Unchecked(n).value)
    ensures ModuleInputOf(n) == Unchecked(n)
  {
    hide Sort, Collect, ValidModuleRecords;
  }

  lemma CandidateIsPrepared(kernel: Elf, modules: seq<NamedElf>, p: Input)
    requires Candidate(kernel, modules) == Some(p) && Good(p)
    ensures Prepared(kernel, modules) == Some(p)
  {
    hide KernelInputOf, Unchecked, ModuleInputOf, Sort, ValidKernelRecords, GoodModule, NamesDistinct, ImagePack.Total, KernelSegment.Valid;
    forall i | 0 <= i < |modules| ensures Unchecked(modules[i]).Some? && ModuleInputOf(modules[i]) == Unchecked(modules[i]) {
      var m := SortedHolds(Unchecked, modules, ByName, i);
      assert Unchecked(modules[i]) == Some(p.modules[m]);
      assert GoodModule(p.modules[m]);
      GoodModuleConverts(modules[i]);
    }
    SameConversion(modules);
    hide Collect, Good;
  }

  /** The builder packages exactly the programs whose segments convert and whose candidate makes an
      image of the documented format, and then it packages that image. */
  lemma PackagesExactly(kernel: Elf, modules: seq<NamedElf>)
    ensures var p := Candidate(kernel, modules);
      Packaged(kernel, modules) == if p.Some? && MakesImage(p.value) then Some(Expected(p.value)) else None
  {
    hide Prepared, Candidate, Good, IsImage, Expected, Pack, ImagePack.Total;
    if Packaged(kernel, modules).Some? {
      var p := Prepared(kernel, modules).value;
      GoodFits(p);
      PreparedIsCandidate(kernel, modules);
      PreparedSizesMatch(kernel, modules, p);
      PackedInputsAreAnImage(p);
    } else if Candidate(kernel, modules).Some? && MakesImage(Candidate(kernel, modules).value) {
      var p := Candidate(kernel, modules).value;
      CandidateRecordsValid(kernel, modules, p);
      ImageHeaderFits(p);
      OnlyGoodInputsPack(p, Expected(p));
      CandidateIsPrepared(kernel, modules, p);
    }
  }

  // ---- The order of packing ----

  /** Names are compared at their first difference, and a prefix comes first. */
  lemma {:induction false} NameOrderExactly(a: seq<u8>, b: seq<u8>)
    ensures NameLe(a, b) <==> exists k: nat :: SplitsAt(a, b, k)
    decreases |a|
  {
    if a == [] {
      assert SplitsAt(a, b, 0);
    } else if b != [] && a[0] == b[0] {
      NameOrderExactly(a[1..], b[1..]);
      if k: nat :| SplitsAt(a[1..], b[1..], k) {
        assert a[..k + 1] == [a[0]] + a[1..][..k] && b[..k + 1] == [b[0]] + b[1..][..k];
        assert SplitsAt(a, b, k + 1);
      }
      if k: nat :| SplitsAt(a, b, k) {
        if 0 < k {
          assert a[1..][..k - 1] == a[..k][1..] && b[1..][..k - 1] == b[..k][1..];
          assert SplitsAt(a[1..], b[1..], k - 1);
        }
      }
    } else {
      forall k: nat | 0 < k ensures !SplitsAt(a, b, k) {
        if k <= |a| && k <= |b| { assert a[..k][0] == a[0] && b[..k][0] == b[0]; }
      }
      if b != [] && a[0] < b[0] { assert SplitsAt(a, b, 0); }
    }
  }

  /** `a` and `b` agree on `k` bytes, and then `a` ends or has the smaller byte. */
  predicate SplitsAt(a: seq<u8>, b: seq<u8>, k: nat) {
    k <= |a| && k <= |b| && a[..k] == b[..k] && (k == |a| || (k < |b| && a[k] < b[k]))
  }

  ghost predicate AscendingModule(m: ImageModule) {
    forall i, j | 0 <= i < j < |m.segments| :: m.segments[i].virtualAddress <= m.segments[j].virtualAddress
  }

  lemma AddressOrdersAreTotal()
    ensures Sorting.Total(ByKernelAddress) && Sorting.Total(BySegmentAddress)
  {}

  lemma PlacedModuleAscends(p: Input, m: nat)
    requires Fits32(ImagePack.Total(p)) && m < |p.modules| && Sorted(p.modules[m].segments, BySegmentAddress)
    ensures AscendingModule(ParsedModules(p)[m])
  {
    hide ImagePack.Total, SegmentDataOff, PlacedModule;
    var parsed, inputs := ParsedModules(p)[m], p.modules[m].segments;
    forall i, j | 0 <= i < j < |parsed.segments| ensures parsed.segments[i].virtualAddress <= parsed.segments[j].virtualAddress {
      assert BySegmentAddress(inputs[i], inputs[j]);
      assert parsed.segments[i] == PlacedSegment(p, m, i) && parsed.segments[j] == PlacedSegment(p, m, j);
    }
  }

  lemma PlacedKernelsAscend(p: Input)
    requires Fits32(ImagePack.Total(p)) && Sorted(p.kernel, ByKernelAddress)
    ensures forall i, j | 0 <= i < j < |p.kernel| :: PlacedKernels(p)[i].virtualAddress <= PlacedKernels(p)[j].virtualAddress
  {
    hide ImagePack.Total, KernelDataOff;
    forall i, j | 0 <= i < j < |p.kernel| ensures PlacedKernels(p)[i].virtualAddress <= PlacedKernels(p)[j].virtualAddress {
      assert ByKernelAddress(p.kernel[i], p.kernel[j]);
      assert PlacedKernels(p)[i] == PlacedKernel(p, i) && PlacedKernels(p)[j] == PlacedKernel(p, j);
    }
  }

  lemma PreparedModulesAscend(kernel: Elf, modules: seq<NamedElf>, p: Input, m: nat)
    requires Prepared(kernel, modules) == Some(p) && m < |p.modules|
    ensures Sorted(p.modules[m].segments, BySegmentAddress)
  {
    hide Sort, Collect, ValidModuleRecords;
    var k := SortedComesFrom(ModuleInputOf, modules, ByName, m);
    AddressOrdersAreTotal();
    SortSorts(Collect(SegmentInputOf, modules[k].elf.segments).value, BySegmentAddress);
  }

  /** A packaged image has its modules in the order of their names, and the segments of the
      kernel and of each module in the order of their addresses. */
  lemma PackagedIsSorted(kernel: Elf, modules: seq<NamedElf>)
    requires Packaged(kernel, modules).Some?
    ensures var img := Packaged(kernel, modules).value;
      && (forall i, j | 0 <= i < j < |img.modules| :: NameLe(img.modules[i].name, img.modules[j].name))
      && (forall i, j | 0 <= i < j < |img.kernelSegments| :: img.kernelSegments[i].virtualAddress <= img.kernelSegments[j].virtualAddress)
      && forall m | 0 <= m < |img.modules| :: AscendingModule(img.modules[m])
  {
    hide Good, Sort, Collect, KernelInputOf, ModuleInputOf, Pack, HeaderOf, ImagePack.Total, AscendingModule, PlacedSegments, PlacedModule;
    var p, img := Prepared(kernel, modules).value, Packaged(kernel, modules).value;
    GoodFits(p);
    ByNameIsTotal();
    AddressOrdersAreTotal();
    SortSorts(Collect(ModuleInputOf, modules).value, ByName);
    SortSorts(Collect(KernelInputOf, kernel.segments).value, ByKernelAddress);
    PlacedKernelsAscend(p);
    forall i, j | 0 <= i < j < |img.modules| ensures NameLe(img.modules[i].name, img.modules[j].name) {
      assert ByName(p.modules[i], p.modules[j]);
    }
    forall m | 0 <= m < |img.modules| ensures AscendingModule(img.modules[m]) {
      PreparedModulesAscend(kernel, modules, p, m);
      PlacedModuleAscends(p, m);
      assert img.modules[m] == ParsedModules(p)[m];
    }
  }

  // ---- Where the packer puts things, in numbers ----

  function RecordsBefore(p: Input, m: nat): nat
    requires m <= |p.modules|
  {
    if m == 0 then 0 else RecordsBefore(p, m - 1) + |p.modules[m - 1].segments|
  }

  function NameBytesBefore(p: Input, m: nat): nat
    requires m <= |p.modules|
  {
    if m == 0 then 0 else NameBytesBefore(p, m - 1) + |p.modules[m - 1].name|
  }

  function KernelBytesBefore(p: Input, i: nat): nat
    requires i <= |p.kernel|
  {
    if i == 0 then 0 else KernelBytesBefore(p, i - 1) + |p.kernel[i - 1].data|
  }

  function SegmentBytesBefore(m: ModuleInput, j: nat): nat
    requires j <= |m.segments|
  {
    if j == 0 then 0 else SegmentBytesBefore(m, j - 1) + |m.segments[j - 1].data|
  }

  function ModuleBytesBefore(p: Input, m: nat): nat
    requires m <= |p.modules|
  {
    if m == 0 then 0 else ModuleBytesBefore(p, m - 1) + SegmentBytesBefore(p.modules[m - 1], |p.modules[m - 1].segments|)
  }

  /** Where the names start: behind the header and all records. */
  function NamesAt(p: Input): nat { 64 + 32 * (|p.kernel| + |p.modules| + RecordsBefore(p, |p.modules|)) }

  /** Where the payloads start: behind the names, at the next multiple of four. */
  function PayloadsAt(p: Input): nat { (NamesAt(p) + NameBytesBefore(p, |p.modules|) + 3) / 4 * 4 }

  lemma {:induction false} SegmentsCounted(p: Input, m: nat)
    requires m <= |p.modules|
    ensures Off(Segments(p.modules), m) == RecordsBefore(p, m)
  {
    if m == 0 { OffEnds(Segments(p.modules)); } else { SegmentsCounted(p, m - 1); OffNext(Segments(p.modules), m - 1); }
    hide Off;
  }

  lemma {:induction false} NamesCounted(p: Input, m: nat)
    requires m <= |p.modules|
    ensures Off(Names(p.modules), m) == NameBytesBefore(p, m)
  {
    if m == 0 { OffEnds(Names(p.modules)); } else { NamesCounted(p, m - 1); OffNext(Names(p.modules), m - 1); }
    hide Off;
  }

  lemma {:induction false} KernelCounted(p: Input, i: nat)
    requires i <= |p.kernel|
    ensures Off(KernelData(p.kernel), i) == KernelBytesBefore(p, i)
  {
    if i == 0 { OffEnds(KernelData(p.kernel)); } else { KernelCounted(p, i - 1); OffNext(KernelData(p.kernel), i - 1); }
    hide Off;
  }

  lemma {:induction false} PayloadsCounted(m: ModuleInput, j: nat)
    requires j <= |m.segments|
    ensures Off(SegmentData(m.segments), j) == SegmentBytesBefore(m, j)
  {
    if j == 0 { OffEnds(SegmentData(m.segments)); } else { PayloadsCounted(m, j - 1); OffNext(SegmentData(m.segments), j - 1); }
    hide Off;
  }

  lemma {:induction false} ModulesCounted(p: Input, m: nat)
    requires m <= |p.modules|
    ensures Off(ModuleData(p.modules), m) == ModuleBytesBefore(p, m)
  {
    if m == 0 {
      OffEnds(ModuleData(p.modules));
    } else {
      var last := p.modules[m - 1];
      ModulesCounted(p, m - 1);
      OffNext(ModuleData(p.modules), m - 1);
      PayloadsCounted(last, |last.segments|);
      OffEnds(SegmentData(last.segments));
      hide Off, Flat;
    }
  }

  /** The parts of a packed image follow each other without gaps: header, kernel records, module
      records, segment records by module, names, at most three zeros, kernel payloads, module
      payloads. */
  lemma CanonicalLayout(p: Input, m: nat)
    requires Fits32(ImagePack.Total(p)) && m < |p.modules|
    ensures var img := Expected(p);
      && img.header.kernelTableOffset == 64 && img.header.moduleTableOffset == 64 + 32 * |p.kernel|
      && img.modules[m].record.segmentTableOffset == 64 + 32 * (|p.kernel| + |p.modules| + RecordsBefore(p, m))
      && img.modules[m].record.nameOffset == NamesAt(p) + NameBytesBefore(p, m)
  {
    SegmentsCounted(p, m);
    SegmentsCounted(p, |p.modules|);
    NamesCounted(p, m);
    hide ImagePack.Total, Pack, Off, PlacedSegments;
    assert Expected(p).modules[m].record == PlacedModule(p, m);
  }

  /** Their payloads, those that are not empty, and the length of the whole. */
  lemma CanonicalPayloads(p: Input)
    requires Fits32(ImagePack.Total(p))
    ensures var img := Expected(p);
      && (forall i | 0 <= i < |p.kernel| && p.kernel[i].data != [] ::
            img.kernelSegments[i].dataOffset == PayloadsAt(p) + KernelBytesBefore(p, i))
      && (forall m, j | 0 <= m < |p.modules| && 0 <= j < |p.modules[m].segments| && p.modules[m].segments[j].data != [] ::
            img.modules[m].segments[j].dataOffset
            == PayloadsAt(p) + KernelBytesBefore(p, |p.kernel|) + ModuleBytesBefore(p, m) + SegmentBytesBefore(p.modules[m], j))
      && img.header.imageSize == |img.bytes| == PayloadsAt(p) + KernelBytesBefore(p, |p.kernel|) + ModuleBytesBefore(p, |p.modules|)
  {
    var img := Expected(p);
    PayloadsStart(p);
    ZoneOffset(p, 0);
    KernelCounted(p, |p.kernel|);
    ModulesCounted(p, |p.modules|);
    hide Pack, Off, PlacedModule, PayloadsAt, DataStart;
    forall i | 0 <= i < |p.kernel| && p.kernel[i].data != []
      ensures img.kernelSegments[i].dataOffset == PayloadsAt(p) + KernelBytesBefore(p, i)
    {
      KernelCounted(p, i);
      assert img.kernelSegments[i] == PlacedKernel(p, i);
    }
    forall m, j | 0 <= m < |p.modules| && 0 <= j < |p.modules[m].segments| && p.modules[m].segments[j].data != []
      ensures img.modules[m].segments[j].dataOffset
           == PayloadsAt(p) + KernelBytesBefore(p, |p.kernel|) + ModuleBytesBefore(p, m) + SegmentBytesBefore(p.modules[m], j)
    {
      ModulesCounted(p, m);
      PayloadsCounted(p.modules[m], j);
      assert img.modules[m].segments[j] == PlacedSegment(p, m, j);
    }
  }

  lemma PayloadsStart(p: Input)
    ensures DataStart(p) == PayloadsAt(p)
  {
    SegmentsCounted(p, |p.modules|);
    NamesCounted(p, |p.modules|);
    hide Off;
  }
}
