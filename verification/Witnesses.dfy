/** Concrete images: some programs package, some parsed images cannot be planned, and some
    images with a documented layout are rejected. */
module Witnesses {
  import opened Platform
  import opened Bytes
  import opened Records
  import opened Validation
  import opened ImageFormat
  import opened ImageSoundness
  import opened Layout
  import opened ImagePack
  import opened ImageRoundTrip
  import opened Boot
  import opened Builder
  import opened Memory
  import Block
  import WriteBack

  // ---- A program that packages ----

  /** A program of one word, linked at the bootstrap entry's direct-map address. */
  function OneWord(): Elf { Elf(0xc000_8000, [ElfSegment(0xc000_8000, [1, 2, 3, 4], 4, 4)]) }

  function OneWordInput(): Input {
    Input(0xc000_8000, [KernelInput(KernelSegment(0, 0x4000_8000, 0xc000_8000, 4, 4, 4), [1, 2, 3, 4])], [])
  }

  lemma OneWordTotal()
    ensures Total(OneWordInput()) == 100
  {
    var p := OneWordInput();
    OffNext(KernelData(p.kernel), 0);
    OffEnds(KernelData(p.kernel));
    OffEnds(Segments(p.modules));
    OffEnds(Names(p.modules));
    OffEnds(ModuleData(p.modules));
    hide Off;
    assert SegmentTableOff(p, 0) == 96 && NameOff(p, 0) == 96 && Align4(96) == 96;
  }

  lemma OneWordIsGood()
    ensures Good(OneWordInput())
  {
    hide Total;
    OneWordTotal();
    var p := OneWordInput();
    var records := KernelInputs(p);
    assert records[0] in records && IsKernelEntry(records[0], p.entry) && IsBootstrap(records[0]);
  }

  lemma OneWordPrepares()
    ensures Prepared(OneWord(), []) == Some(OneWordInput())
  {
    var segments := OneWord().segments;
    assert KernelInputOf(segments[0]) == Some(OneWordInput().kernel[0]);
    assert segments[1..] == [];
  }

  lemma SomeProgramPackages()
    ensures Packaged(OneWord(), []).Some?
  {
    hide Good, Prepared, Expected;
    OneWordPrepares();
    OneWordIsGood();
  }

  /** A module of one word, linked at 0x0040_0000. */
  function LowModule(): NamedElf {
    NamedElf([0x6d], Elf(0x0040_0000, [ElfSegment(0x0040_0000, [5, 6, 7, 8], 4, 5)]))
  }

  function LowModuleInput(): ModuleInput {
    ModuleInput([0x6d], 0x0040_0000, [SegmentInput(ModuleSegment(0, 0x0040_0000, 4, 4, 5), [5, 6, 7, 8])])
  }

  function WithModuleInput(): Input { OneWordInput().(modules := [LowModuleInput()]) }

  lemma WithModuleTotal()
    ensures Total(WithModuleInput()) == 172
  {
    var p := WithModuleInput();
    var data := SegmentData(p.modules[0].segments);
    OffNext(KernelData(p.kernel), 0);
    OffEnds(KernelData(p.kernel));
    OffNext(Segments(p.modules), 0);
    OffEnds(Segments(p.modules));
    OffNext(Names(p.modules), 0);
    OffEnds(Names(p.modules));
    OffNext(data, 0);
    OffEnds(data);
    OffNext(ModuleData(p.modules), 0);
    OffEnds(ModuleData(p.modules));
    hide Off, Flat;
    assert SegmentTableOff(p, 1) == 160 && NameOff(p, 1) == 161 && Align4(161) == 164;
  }

  lemma LowModuleIsGood()
    ensures GoodModule(LowModuleInput())
  {
    var m := LowModuleInput();
    var records := SegmentInputs(m);
    assert records[0] in records && IsModuleEntry(records[0], m.entry);
    assert m.name[1..] == [];
  }

  lemma WithModuleIsGood()
    ensures Good(WithModuleInput())
  {
    hide Total, GoodModule;
    WithModuleTotal();
    OneWordIsGood();
    LowModuleIsGood();
    assert KernelInputs(WithModuleInput()) == KernelInputs(OneWordInput());
  }

  lemma LowModulePrepares()
    ensures ModuleInputOf(LowModule()) == Some(LowModuleInput())
  {
    var segments := LowModule().elf.segments;
    assert SegmentInputOf(segments[0]) == Some(LowModuleInput().segments[0]);
    assert segments[1..] == [];
    LowModuleIsGood();
    hide ValidModuleRecords;
  }

  lemma WithModulePrepares()
    ensures Prepared(OneWord(), [LowModule()]) == Some(WithModuleInput())
  {
    hide ModuleInputOf;
    OneWordPrepares();
    LowModulePrepares();
    assert [LowModule()][1..] == [];
  }

  /** So does one with a module at an ordinary low address. */
  lemma SomeModulePackages()
    ensures Packaged(OneWord(), [LowModule()]).Some?
  {
    hide Good, Prepared, Expected;
    WithModulePrepares();
    WithModuleIsGood();
  }

  // ---- A parsed image that cannot be planned ----

  /** A code segment at the bootstrap entry, and an empty one whose data offset is stray. */
  function StrayInput(): Input {
    Input(0xc000_8000,
          [KernelInput(KernelSegment(0, 0x4000_8000, 0xc000_8000, 4, 4, 4), [1, 2, 3, 4]),
           KernelInput(KernelSegment(0xffff_ffff, 0x4000_9000, 0x4000_9000, 0, 4, 0), [])],
          [])
  }

  lemma StrayTotal()
    ensures Total(StrayInput()) == 132
  {
    var p := StrayInput();
    var data := KernelData(p.kernel);
    OffEnds(data);
    OffNext(data, 0);
    OffNext(data, 1);
    OffEnds(Segments(p.modules));
    OffEnds(Names(p.modules));
    OffEnds(ModuleData(p.modules));
    hide Off;
    assert SegmentTableOff(p, 0) == 128 && NameOff(p, 0) == 128 && Align4(128) == 128;
  }

  lemma StrayRecordsAreValid()
    ensures var p := StrayInput();
      && p.kernel[0].record.Valid() && p.kernel[1].record.Valid()
      && KernelPlaced(p.kernel[0].record) && KernelPlaced(p.kernel[1].record)
      && IsKernelEntry(p.kernel[0].record, p.entry) && IsBootstrap(p.kernel[0].record)
      && !PhysicalExtent(p.kernel[0].record).Overlaps(PhysicalExtent(p.kernel[1].record))
      && !VirtualExtent(p.kernel[0].record).Overlaps(VirtualExtent(p.kernel[1].record))
  {}

  lemma StrayInputIsGood()
    ensures Good(StrayInput()) && SizesMatch(StrayInput()) && Total(StrayInput()) == 132
  {
    hide Total, KernelPlaced, IsKernelEntry, IsBootstrap, PhysicalExtent, VirtualExtent, KernelSegment.Valid;
    StrayTotal();
    StrayRecordsAreValid();
    var p, records := StrayInput(), KernelInputs(StrayInput());
    assert records[0] == p.kernel[0].record && records[1] == p.kernel[1].record && |records| == 2;
    assert records[0] in records;
  }

  lemma StrayRecordIsKept()
    requires Fits32(Total(StrayInput()))
    ensures PlacedKernels(StrayInput())[1].dataOffset == 0xffff_ffff
  {
    hide Total, KernelDataOff;
  }

  /** So parsing does not make planning safe: this image parses, and its plan panics. */
  lemma ParsedImageMayNotBePlannable()
    ensures exists img: SystemImage :: IsImage(img.bytes, img) && !Plannable(img)
  {
    hide Total, Pack, IsImage, Good, SizesMatch, KernelDataOff, Zones, Start, ModulesSpans, HeaderOf, PlacedModule, PlacedSegments,
         PlacedKernel;
    var p := StrayInput();
    StrayInputIsGood();
    GoodFits(p);
    PackedInputsAreAnImage(p);
    ZoneOffset(p, 0);
    StrayRecordIsKept();
    assert !Sliceable(Expected(p), Expected(p).kernelSegments[1]);
  }

  // ---- An image with a documented layout that is rejected ----

  /** The header of the one-word image, but with its empty module table placed inside the header. */
  function ShiftedHeader(): ImageHeader
    requires Fits32(Total(OneWordInput()))
  {
    HeaderOf(OneWordInput()).(moduleTableOffset := 10)
  }

  ghost predicate OneWordSizes() { Total(OneWordInput()) == |Pack(OneWordInput())| == 100 }

  ghost function ShiftedImage(): SystemImage
    requires OneWordSizes()
  {
    var img := Expected(OneWordInput());
    SystemImage(Serialize(ShiftedHeader().Words()) + img.bytes[HEADER_SIZE..], ShiftedHeader(), img.kernelSegments, [])
  }

  lemma OneWordIsAnImage()
    ensures Good(OneWordInput()) && IsImage(Pack(OneWordInput()), Expected(OneWordInput()))
    ensures OneWordSizes()
  {
    hide IsImage, Pack, Total, Good;
    OneWordTotal();
    OneWordIsGood();
    assert SizesMatch(OneWordInput());
    PackedInputsAreAnImage(OneWordInput());
    ZoneOffset(OneWordInput(), 0);
  }

  lemma ShiftedHeaderDecodes()
    requires OneWordSizes()
    ensures |ShiftedImage().bytes| == 100 && DecodeHeader(ShiftedImage().bytes) == Some(ShiftedHeader())
  {
    var bytes, header := ShiftedImage().bytes, ShiftedHeader();
    assert header.Valid();
    hide Pack, Total, Serialize, DecodeHeader, ImageHeader.Valid, HeaderOf;
    assert bytes[..HEADER_SIZE] == Serialize(header.Words());
    HeaderCodec(bytes, header);
  }

  /** The shifted image decodes: its records are those of the one-word image. */
  lemma ShiftedImageDecodes()
    requires OneWordSizes()
    requires IsImage(Pack(OneWordInput()), Expected(OneWordInput()))
    ensures Decodes(ShiftedImage().bytes, ShiftedImage())
  {
    hide Pack, Total, Serialize, DecodeHeader, DecodeKernelSegment, ValidKernelRecords, AllSpans, Packed, PlacedKernel;
    ShiftedHeaderDecodes();
    var img, bytes := Expected(OneWordInput()), ShiftedImage().bytes;
    assert Record(bytes, HEADER_SIZE, 0) == Record(img.bytes, HEADER_SIZE, 0);
  }

  lemma OneWordDataOffset()
    ensures KernelDataOff(OneWordInput(), 0) == 96
  {
    var p := OneWordInput();
    OffEnds(KernelData(p.kernel));
    OffEnds(Segments(p.modules));
    OffEnds(Names(p.modules));
    hide Off;
    assert SegmentTableOff(p, 0) == 96 && NameOff(p, 0) == 96 && Align4(96) == 96;
  }

  lemma ShiftedPayload()
    requires OneWordSizes()
    ensures |ShiftedImage().kernelSegments| == 1
    ensures ShiftedImage().kernelSegments[0].dataOffset == 96 && ShiftedImage().kernelSegments[0].fileSize == 4
  {
    hide Total, Pack, Serialize, HeaderOf, KernelDataOff, ImageHeader.Words;
    OneWordDataOffset();
    assert ShiftedImage().kernelSegments[0] == PlacedKernel(OneWordInput(), 0);
  }

  /** So the parser rejects some images with a documented layout: here every range fits and
      no byte has two owners, but the empty module table starts inside the header. */
  lemma DocumentedImageMayBeRejected()
    ensures exists bytes: seq<u8>, img: SystemImage ::
      && Decodes(bytes, img) && PartsFit(img, |bytes|) && BytesHaveOneOwner(img)
      && forall other :: !IsImage(bytes, other)
  {
    OneWordIsAnImage();
    hide Pack, Total, IsImage, Good, Expected, Decodes;
    ShiftedHeaderDecodes();
    ShiftedImageDecodes();
    ShiftedPayload();
    var img := ShiftedImage();
    ShiftedLayout(img);
    forall other ensures !IsImage(img.bytes, other) {
      ImagesExactly(img.bytes, other);
      if Decodes(img.bytes, other) { ImageIsUnique(img.bytes, img, other); }
    }
    assert Decodes(img.bytes, img) && PartsFit(img, |img.bytes|) && BytesHaveOneOwner(img)
        && forall other :: !IsImage(img.bytes, other);
  }

  lemma ShiftedLayout(img: SystemImage)
    requires |img.kernelSegments| == 1 && img.modules == []
    requires img.kernelSegments[0].dataOffset == 96 && img.kernelSegments[0].fileSize == 4
    requires img.header.kernelTableOffset == 64 && img.header.kernelCount == 1
    requires img.header.moduleTableOffset == 10 && img.header.moduleCount == 0
    ensures PartsFit(img, 100) && BytesHaveOneOwner(img) && !ClearOf(img, ModuleTablePart)
  {
    forall a | Present(img, a) ensures a in {HeaderPart, KernelTablePart, ModuleTablePart, KernelPayload(0)} {}
    assert Extent(img, HeaderPart) == Span(0, 64) && Extent(img, KernelTablePart) == Span(64, 96)
        && Extent(img, ModuleTablePart) == Span(10, 10) && Extent(img, KernelPayload(0)) == Span(96, 100);
  }

  // ---- A written sector that is not marked dirty ----

  /** A disk of 2^32 zeroed sectors. */
  function HugeDisk(): seq<Block.Unit> {
    [Block.Unit(Some(seq(0x1_0000_0000 * Block.SECTOR_SIZE, (_: int) => 0)), {}), Block.Unit(None, {})]
  }

  /** A write of its last sector, from the start of RAM. */
  function LastSectorWrite(): Block.Request { Block.Request(2, 0xffff_ffff, 1, RAM_BASE, 0, 0) }

  /** The number past the last sector does not fit 32 bits: the write succeeds and changes the
      disk, and yet nothing is dirty, so that a flush returns early without writing. */
  lemma WrittenSectorMayStayClean(m: Mem)
    requires m.Valid()
    ensures var q, after := LastSectorWrite(), Block.Execute(LastSectorWrite(), HugeDisk(), m);
      && after.error == Block.NoError && after.units[0].media.Some? && after.units[0].dirty == {}
      && q.lba * Block.SECTOR_SIZE + Block.SECTOR_SIZE <= |after.units[0].media.value|
      && after.units[0].media.value[q.lba * Block.SECTOR_SIZE..q.lba * Block.SECTOR_SIZE + Block.SECTOR_SIZE]
      == m.ram[..Block.SECTOR_SIZE]
  {
    assert Block.Validate(LastSectorWrite(), HugeDisk()) == Block.NoError;
    WriteBack.ErrorIsValidation(LastSectorWrite(), HugeDisk(), m);
    WriteBack.PutWrites(LastSectorWrite(), HugeDisk(), m);
    assert Block.SectorRange(0xffff_ffff, Block.Marked(0xffff_ffff, 1)) == {};
    hide Block.Validate, Bytes.Splice;
  }
}
