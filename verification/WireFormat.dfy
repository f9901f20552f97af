/** The documented image format, in numbers: every field at its byte offset. What decodes, and
    what the parser accepts, is exactly what this format describes
    (docs/platform/system-image-v1.md). */
module WireFormat {
  import opened Platform
  import opened Bytes
  import opened Memory
  import opened Records
  import opened Validation
  import opened ImageFormat
  import opened ImageSoundness
  import opened AddressRules
  import opened Utf8

  // ---- Fields ----

  /** The little-endian word at `at`. */
  function Word(bytes: seq<u8>, at: nat): int
    requires at + 4 <= |bytes|
  {
    var b0: int, b1: int, b2: int, b3: int := bytes[at], bytes[at + 1], bytes[at + 2], bytes[at + 3];
    b0 + 0x100 * b1 + 0x1_0000 * b2 + 0x100_0000 * b3
  }

  predicate ZerosAt(bytes: seq<u8>, from: nat, to: nat)
    requires to <= |bytes|
  {
    forall x | from <= x < to :: bytes[x] == 0
  }

  lemma WordIs(bytes: seq<u8>, at: nat, size: nat, i: nat)
    requires at + size <= |bytes| && 4 * i + 4 <= size
    ensures WordAt(bytes[at..at + size], i) == Word(bytes, at + 4 * i)
  {
    LittleEndian(0, bytes[at..at + size][4 * i..4 * i + 4]);
    hide FromLe32, Le32;
  }

  lemma ZerosAre(bytes: seq<u8>, at: nat, size: nat, offset: nat, length: nat)
    requires at + size <= |bytes| && offset + length <= size
    ensures ReservedZero(bytes[at..at + size], offset, length) <==> ZerosAt(bytes, at + offset, at + offset + length)
  {
    var record := bytes[at..at + size];
    assert forall i | offset <= i < offset + length :: record[i] == bytes[at + i];
    if ReservedZero(record, offset, length) {
      forall x | at + offset <= x < at + offset + length ensures bytes[x] == 0 { assert record[x - at] == 0; }
    }
  }

  // ---- Records ----

  /** The values that a header may have. */
  predicate HeaderRules(h: ImageHeader) {
    && 64 <= h.imageSize <= 0x0100_0000
    && h.kernelTableOffset + 32 * h.kernelCount <= h.imageSize && h.moduleTableOffset + 32 * h.moduleCount <= h.imageSize
    && h.bootstrapEntry == 0x4000_8000 && 0xc000_0000 <= h.kernelEntry < 0xc400_0000 && h.bootInfo == 0x4000_7000
  }

  predicate HeaderAt(bytes: seq<u8>, h: ImageHeader) {
    && 64 <= |bytes|
    && Word(bytes, 0) == 0x4d45_4d55 && Word(bytes, 4) == 1 + 0x1_0000 * 64
    && Word(bytes, 8) == h.imageSize && Word(bytes, 12) == h.kernelTableOffset && Word(bytes, 16) == h.kernelCount
    && Word(bytes, 20) == h.moduleTableOffset && Word(bytes, 24) == h.moduleCount && Word(bytes, 28) == h.bootstrapEntry
    && Word(bytes, 32) == h.kernelEntry && Word(bytes, 36) == h.bootInfo
    && ZerosAt(bytes, 40, 64) && HeaderRules(h)
  }

  predicate KernelSegmentAt(bytes: seq<u8>, at: nat, s: KernelSegment) {
    && at + 32 <= |bytes|
    && Word(bytes, at) == s.dataOffset && Word(bytes, at + 4) == s.physicalAddress && Word(bytes, at + 8) == s.virtualAddress
    && Word(bytes, at + 12) == s.fileSize && Word(bytes, at + 16) == s.memorySize && Word(bytes, at + 20) == s.flags
    && ZerosAt(bytes, at + 24, at + 32)
    && 0 < s.memorySize && s.fileSize <= s.memorySize && s.flags <= 7
    && 0x4000_0000 <= s.physicalAddress && s.physicalAddress + s.memorySize <= 0x4400_0000
    && (s.virtualAddress == s.physicalAddress || s.virtualAddress == s.physicalAddress + 0x8000_0000)
  }

  predicate ModuleRecordAt(bytes: seq<u8>, at: nat, r: ModuleRecord) {
    && at + 32 <= |bytes|
    && Word(bytes, at) == r.nameOffset && Word(bytes, at + 4) == r.nameLength
    && Word(bytes, at + 8) == r.segmentTableOffset && Word(bytes, at + 12) == r.segmentCount && Word(bytes, at + 16) == r.entry
    && ZerosAt(bytes, at + 20, at + 32)
  }

  predicate ModuleSegmentAt(bytes: seq<u8>, at: nat, s: ModuleSegment) {
    && at + 32 <= |bytes|
    && Word(bytes, at) == s.dataOffset && Word(bytes, at + 4) == s.virtualAddress
    && Word(bytes, at + 8) == s.fileSize && Word(bytes, at + 12) == s.memorySize && Word(bytes, at + 16) == s.flags
    && ZerosAt(bytes, at + 20, at + 32)
    && 0 < s.memorySize && s.fileSize <= s.memorySize && s.flags <= 7
  }

  predicate BootInfoAt(bytes: seq<u8>, at: nat, info: BootInfo) {
    && at + 64 <= |bytes|
    && Word(bytes, at) == 0x4d42_4f4f && Word(bytes, at + 4) == 1 + 0x1_0000 * 64
    && Word(bytes, at + 8) == info.systemRomBase == 0x0800_0000 && Word(bytes, at + 12) == info.imageSize
    && Word(bytes, at + 16) == info.moduleTableOffset && Word(bytes, at + 20) == info.moduleCount
    && Word(bytes, at + 24) == 0xc000_0000 && Word(bytes, at + 28) == 0x4000_0000 && Word(bytes, at + 32) == 0x0400_0000
    && ZerosAt(bytes, at + 36, at + 64)
  }

  lemma ZeroWordAt(bytes: seq<u8>, at: nat)
    requires at + 4 <= |bytes|
    ensures Word(bytes, at) == 0 <==> ZerosAt(bytes, at, at + 4)
  {}

  lemma ZerosJoin(bytes: seq<u8>, a: nat, b: nat, c: nat)
    requires a <= b <= c <= |bytes|
    ensures ZerosAt(bytes, a, c) <==> ZerosAt(bytes, a, b) && ZerosAt(bytes, b, c)
  {}

  lemma HalvesAre(bytes: seq<u8>, at: nat, size: nat, low: int, high: int)
    requires at + size <= |bytes| && 8 <= size && 0 <= low < 256 && 0 <= high < 256
    ensures HalfAt(bytes[at..at + size], 4) == low && HalfAt(bytes[at..at + size], 6) == high
       <==> Word(bytes, at + 4) == low + 0x1_0000 * high
  {
    HalvesOfWord(bytes[at..at + size], low, high);
    WordIs(bytes, at, size, 1);
    hide WordAt, Word, HalfAt;
  }

  lemma HeaderRulesExactly(h: ImageHeader)
    ensures h.Valid() <==> HeaderRules(h)
  {}

  lemma HeaderWordsAre(bytes: seq<u8>)
    requires 64 <= |bytes|
    ensures WordAt(bytes, 0) == Word(bytes, 0) && WordAt(bytes, 2) == Word(bytes, 8) && WordAt(bytes, 3) == Word(bytes, 12)
    ensures WordAt(bytes, 4) == Word(bytes, 16) && WordAt(bytes, 5) == Word(bytes, 20) && WordAt(bytes, 6) == Word(bytes, 24)
    ensures WordAt(bytes, 7) == Word(bytes, 28) && WordAt(bytes, 8) == Word(bytes, 32) && WordAt(bytes, 9) == Word(bytes, 36)
    ensures HalfAt(bytes, 4) == 1 && HalfAt(bytes, 6) == 64 <==> Word(bytes, 4) == 1 + 0x1_0000 * 64
    ensures WordAt(bytes, 10) == 0 && ReservedZero(bytes, 44, 20) <==> ZerosAt(bytes, 40, 64)
  {
    assert bytes[0..0 + |bytes|] == bytes;
    forall i: nat | i <= 10 ensures WordAt(bytes, i) == Word(bytes, 4 * i) { WordIs(bytes, 0, |bytes|, i); }
    ZerosAre(bytes, 0, |bytes|, 44, 20);
    ZeroWordAt(bytes, 40);
    ZerosJoin(bytes, 40, 44, 64);
    HalvesAre(bytes, 0, |bytes|, 1, 64);
    hide WordAt, Word, HalfAt, ReservedZero, ZerosAt;
  }

  lemma HeaderExactly(bytes: seq<u8>, h: ImageHeader)
    ensures DecodeHeader(bytes) == Some(h) <==> HeaderAt(bytes, h)
  {
    hide WordAt, Word, HalfAt, ReservedZero, ZerosAt, HeaderRules, ImageHeader.Valid;
    if 64 <= |bytes| {
      HeaderWordsAre(bytes);
      HeaderRulesExactly(h);
    }
  }

  lemma KernelSegmentExactly(bytes: seq<u8>, at: nat, s: KernelSegment)
    requires at + 32 <= |bytes|
    ensures DecodeKernelSegment(bytes[at..at + 32]) == Some(s) <==> KernelSegmentAt(bytes, at, s)
  {
    forall i: nat | i < 6 ensures WordAt(bytes[at..at + 32], i) == Word(bytes, at + 4 * i) { WordIs(bytes, at, 32, i); }
    ZerosAre(bytes, at, 32, 24, 8);
    hide WordAt, Word, ReservedZero, ZerosAt;
  }

  lemma ModuleRecordExactly(bytes: seq<u8>, at: nat, r: ModuleRecord)
    requires at + 32 <= |bytes|
    ensures DecodeModuleRecord(bytes[at..at + 32]) == Some(r) <==> ModuleRecordAt(bytes, at, r)
  {
    forall i: nat | i < 6 ensures WordAt(bytes[at..at + 32], i) == Word(bytes, at + 4 * i) { WordIs(bytes, at, 32, i); }
    ZerosAre(bytes, at, 32, 24, 8);
    ZeroWordAt(bytes, at + 20);
    ZerosJoin(bytes, at + 20, at + 24, at + 32);
    hide WordAt, Word, ReservedZero, ZerosAt;
  }

  lemma ModuleSegmentExactly(bytes: seq<u8>, at: nat, s: ModuleSegment)
    requires at + 32 <= |bytes|
    ensures DecodeModuleSegment(bytes[at..at + 32]) == Some(s) <==> ModuleSegmentAt(bytes, at, s)
  {
    forall i: nat | i < 5 ensures WordAt(bytes[at..at + 32], i) == Word(bytes, at + 4 * i) { WordIs(bytes, at, 32, i); }
    ZerosAre(bytes, at, 32, 20, 12);
    hide WordAt, Word, ReservedZero, ZerosAt;
  }

  lemma BootInfoExactly(bytes: seq<u8>, at: nat, info: BootInfo)
    requires at + 64 <= |bytes|
    ensures DecodeBootInfo(bytes[at..at + 64]) == Some(info) <==> BootInfoAt(bytes, at, info)
  {
    forall i: nat | i <= 9 ensures WordAt(bytes[at..at + 64], i) == Word(bytes, at + 4 * i) { WordIs(bytes, at, 64, i); }
    ZerosAre(bytes, at, 64, 40, 24);
    ZeroWordAt(bytes, at + 36);
    ZerosJoin(bytes, at + 36, at + 40, at + 64);
    HalvesAre(bytes, at, 64, 1, 64);
    hide WordAt, Word, HalfAt, ReservedZero, ZerosAt;
  }

  // ---- Images ----

  ghost predicate KernelTableAt(bytes: seq<u8>, table: nat, segments: seq<KernelSegment>) {
    && table + 32 * |segments| <= |bytes|
    && forall i | 0 <= i < |segments| :: KernelSegmentAt(bytes, table + 32 * i, segments[i])
  }

  ghost predicate SegmentTableAt(bytes: seq<u8>, table: nat, segments: seq<ModuleSegment>) {
    && table + 32 * |segments| <= |bytes|
    && forall j | 0 <= j < |segments| :: ModuleSegmentAt(bytes, table + 32 * j, segments[j])
  }

  /** The name is some text, and it is where the record says. */
  ghost predicate NameAt(bytes: seq<u8>, m: ImageModule) {
    && m.record.nameOffset + m.record.nameLength <= |bytes| && 0 < m.record.nameLength
    && m.name == bytes[m.record.nameOffset..m.record.nameOffset + m.record.nameLength] && IsText(m.name)
  }

  ghost predicate ModuleAt(bytes: seq<u8>, at: nat, m: ImageModule) {
    && ModuleRecordAt(bytes, at, m.record) && NameAt(bytes, m)
    && |m.segments| == m.record.segmentCount && SegmentTableAt(bytes, m.record.segmentTableOffset, m.segments)
    && ModuleRules(m.segments, m.record.entry)
  }

  ghost predicate ModuleTableAt(bytes: seq<u8>, table: nat, modules: seq<ImageModule>) {
    && table + 32 * |modules| <= |bytes|
    && (forall m | 0 <= m < |modules| :: ModuleAt(bytes, table + 32 * m, modules[m]))
    && forall m, n | 0 <= m < n < |modules| :: modules[m].name != modules[n].name
  }

  /** The bytes describe the image: header, tables, names and rules, wherever the parts lie. */
  ghost predicate Describes(bytes: seq<u8>, img: SystemImage) {
    && img.bytes == bytes && HeaderAt(bytes, img.header) && img.header.imageSize == |bytes|
    && |img.kernelSegments| == img.header.kernelCount && KernelTableAt(bytes, img.header.kernelTableOffset, img.kernelSegments)
    && KernelRules(img.kernelSegments, img.header.kernelEntry)
    && |img.modules| == img.header.moduleCount && ModuleTableAt(bytes, img.header.moduleTableOffset, img.modules)
  }

  lemma SegmentTableExactly(bytes: seq<u8>, table: nat, segments: seq<ModuleSegment>)
    ensures SegmentTable(bytes, table, segments) <==> SegmentTableAt(bytes, table, segments)
  {
    if table + 32 * |segments| <= |bytes| {
      forall j | 0 <= j < |segments|
        ensures DecodeModuleSegment(Record(bytes, table, j)) == Some(segments[j]) <==> ModuleSegmentAt(bytes, table + 32 * j, segments[j])
      {
        ModuleSegmentExactly(bytes, table + 32 * j, segments[j]);
        assert Record(bytes, table, j) == bytes[table + 32 * j..table + 32 * j + 32];
      }
      hide DecodeModuleSegment, ModuleSegmentAt, Record;
    }
  }

  lemma KernelTableExactly(bytes: seq<u8>, table: nat, segments: seq<KernelSegment>)
    ensures KernelTable(bytes, table, segments) <==> KernelTableAt(bytes, table, segments)
  {
    if table + 32 * |segments| <= |bytes| {
      forall i | 0 <= i < |segments|
        ensures DecodeKernelSegment(Record(bytes, table, i)) == Some(segments[i]) <==> KernelSegmentAt(bytes, table + 32 * i, segments[i])
      {
        KernelSegmentExactly(bytes, table + 32 * i, segments[i]);
        assert Record(bytes, table, i) == bytes[table + 32 * i..table + 32 * i + 32];
      }
      hide DecodeKernelSegment, KernelSegmentAt, Record;
    }
  }

  lemma SegmentsInTableHaveMemory(bytes: seq<u8>, table: nat, segments: seq<ModuleSegment>)
    requires SegmentTableAt(bytes, table, segments)
    ensures forall j | 0 <= j < |segments| :: segments[j].memorySize != 0
  {
    forall j | 0 <= j < |segments| ensures segments[j].memorySize != 0 {
      assert ModuleSegmentAt(bytes, table + 32 * j, segments[j]);
    }
  }

  lemma NameExactly(bytes: seq<u8>, m: ImageModule)
    ensures NameAt(bytes, m) <==>
      && NameSpan(m.record).end <= |bytes| && m.name == bytes[m.record.nameOffset..NameSpan(m.record).end]
      && m.name != [] && ValidUtf8(m.name)
  {
    Utf8Exactly(m.name);
    hide ValidUtf8, IsText;
  }

  lemma ModuleExactly(bytes: seq<u8>, at: nat, m: ImageModule)
    requires at + 32 <= |bytes|
    ensures IsModule(bytes, bytes[at..at + 32], m) <==> ModuleAt(bytes, at, m)
  {
    ModuleRecordExactly(bytes, at, m.record);
    SegmentTableExactly(bytes, m.record.segmentTableOffset, m.segments);
    NameExactly(bytes, m);
    if SegmentTableAt(bytes, m.record.segmentTableOffset, m.segments) {
      SegmentsInTableHaveMemory(bytes, m.record.segmentTableOffset, m.segments);
      ModuleRecordsExactly(m.segments, m.record.entry);
    }
    hide DecodeModuleRecord, ModuleRecordAt, SegmentTable, SegmentTableAt, NameAt, NameSpan, ValidUtf8, ValidModuleRecords, ModuleRules;
  }

  lemma ModuleTableExactly(bytes: seq<u8>, table: nat, modules: seq<ImageModule>)
    ensures ModuleTable(bytes, table, modules) <==> ModuleTableAt(bytes, table, modules)
  {
    if table + 32 * |modules| <= |bytes| {
      forall m | 0 <= m < |modules|
        ensures IsModule(bytes, Record(bytes, table, m), modules[m]) <==> ModuleAt(bytes, table + 32 * m, modules[m])
      {
        ModuleExactly(bytes, table + 32 * m, modules[m]);
        assert Record(bytes, table, m) == bytes[table + 32 * m..table + 32 * m + 32];
      }
      hide IsModule, ModuleAt, Record;
    }
  }

  /** What decodes is exactly what the format describes. */
  lemma DecodesExactly(bytes: seq<u8>, img: SystemImage)
    ensures Decodes(bytes, img) <==> Describes(bytes, img)
  {
    HeaderExactly(bytes, img.header);
    KernelTableExactly(bytes, img.header.kernelTableOffset, img.kernelSegments);
    KernelRecordsExactly(img.kernelSegments, img.header.kernelEntry);
    ModuleTableExactly(bytes, img.header.moduleTableOffset, img.modules);
    hide DecodeHeader, HeaderAt, KernelTable, KernelTableAt, ValidKernelRecords, KernelRules, ModuleTable, ModuleTableAt;
  }

  // ---- Who owns which byte ----

  /** Byte `x` belongs to a part of the image. */
  predicate Owns(img: SystemImage, part: Part, x: int)
    requires Present(img, part)
  {
    match part
    case HeaderPart => In(x, 0, 64)
    case KernelTablePart => In(x, img.header.kernelTableOffset, 32 * img.header.kernelCount)
    case ModuleTablePart => In(x, img.header.moduleTableOffset, 32 * img.header.moduleCount)
    case KernelPayload(i) => In(x, img.kernelSegments[i].dataOffset, img.kernelSegments[i].fileSize)
    case NamePart(m) => In(x, img.modules[m].record.nameOffset, img.modules[m].record.nameLength)
    case SegmentTablePart(m) => In(x, img.modules[m].record.segmentTableOffset, 32 * img.modules[m].record.segmentCount)
    case ModulePayload(m, j) => In(x, img.modules[m].segments[j].dataOffset, img.modules[m].segments[j].fileSize)
  }

  /** The owned bytes lie in the image, and no byte has two owners. */
  ghost predicate LaidOut(img: SystemImage) {
    && (forall a, x | Present(img, a) && Owns(img, a, x) :: x < |img.bytes|)
    && forall a, b, x | Present(img, a) && Present(img, b) && Owns(img, a, x) && Owns(img, b, x) :: a == b
  }

  /** An empty module table does not split another part in two. */
  ghost predicate EmptyTableClear(img: SystemImage) {
    var at := img.header.moduleTableOffset;
    img.header.moduleCount == 0 ==> forall b | Present(img, b) :: !(Owns(img, b, at - 1) && Owns(img, b, at))
  }

  lemma OwnsExtent(img: SystemImage, part: Part, x: int)
    requires Present(img, part)
    ensures Owns(img, part, x) <==> Extent(img, part).start <= x < Extent(img, part).end
  {}

  lemma PartHasBytes(img: SystemImage, a: Part)
    requires Decodes(img.bytes, img) && Present(img, a)
    ensures Extent(img, a).start < Extent(img, a).end || (a == ModuleTablePart && img.header.moduleCount == 0)
  {
    hide Decodes;
    ExtentIsOrdered(img, a);
    OnlyModuleTableIsEmpty(img.bytes, img, a);
  }

  lemma OwnedPartsFit(img: SystemImage)
    requires Decodes(img.bytes, img) && LaidOut(img)
    ensures PartsFit(img, |img.bytes|)
  {
    DecodesExactly(img.bytes, img);
    assert img.header.moduleTableOffset + 32 * img.header.moduleCount <= |img.bytes|;
    forall a | Present(img, a) ensures Extent(img, a).end <= |img.bytes| {
      PartHasBytes(img, a);
      if Extent(img, a).start < Extent(img, a).end { OwnsExtent(img, a, Extent(img, a).end - 1); }
    }
  }

  lemma PartsFitBytes(img: SystemImage, a: Part, x: int)
    requires PartsFit(img, |img.bytes|) && Present(img, a) && Owns(img, a, x)
    ensures x < |img.bytes|
  {
    OwnsExtent(img, a, x);
    hide Owns, Extent, Present;
    assert Extent(img, a).end <= |img.bytes|;
  }

  lemma OneOwnerOfBytes(img: SystemImage, a: Part, b: Part, x: int)
    requires BytesHaveOneOwner(img) && Present(img, a) && Present(img, b) && Owns(img, a, x) && Owns(img, b, x)
    ensures a == b
  {
    OwnsExtent(img, a, x);
    OwnsExtent(img, b, x);
    var n: nat := x;
    assert Extent(img, a).Holds(n) && Extent(img, b).Holds(n);
    hide Owns, Extent, Present, Span.Holds;
  }

  lemma OwnersAreApart(img: SystemImage)
    requires LaidOut(img)
    ensures BytesHaveOneOwner(img)
  {
    forall a, x: nat, b | Present(img, a) && Extent(img, a).Holds(x) && Present(img, b) && b != a
      ensures !Extent(img, b).Holds(x)
    {
      OwnsExtent(img, a, x);
      OwnsExtent(img, b, x);
    }
    hide Owns, Extent, Present, Span.Holds, LaidOut;
  }

  lemma LaidOutExactly(img: SystemImage)
    requires Decodes(img.bytes, img)
    ensures LaidOut(img) <==> PartsFit(img, |img.bytes|) && BytesHaveOneOwner(img)
  {
    if LaidOut(img) {
      OwnedPartsFit(img);
      OwnersAreApart(img);
    } else if PartsFit(img, |img.bytes|) && BytesHaveOneOwner(img) {
      forall a, x | Present(img, a) && Owns(img, a, x) ensures x < |img.bytes| { PartsFitBytes(img, a, x); }
      forall a, b, x | Present(img, a) && Present(img, b) && Owns(img, a, x) && Owns(img, b, x) ensures a == b {
        OneOwnerOfBytes(img, a, b, x);
      }
    }
    hide Decodes, Owns, Extent, Present, PartsFit, BytesHaveOneOwner;
  }

  lemma EmptyTableExactly(img: SystemImage)
    ensures EmptyTableClear(img) <==> (img.header.moduleCount == 0 ==> ClearOf(img, ModuleTablePart))
  {
    if img.header.moduleCount == 0 {
      var at := img.header.moduleTableOffset;
      assert Extent(img, ModuleTablePart) == Span(at, at) && !Owns(img, ModuleTablePart, at);
      forall b | Present(img, b)
        ensures Owns(img, b, at - 1) && Owns(img, b, at) <==> Extent(img, b).start < at < Extent(img, b).end
      {
        OwnsExtent(img, b, at - 1);
        OwnsExtent(img, b, at);
      }
      hide Owns, Extent, Present;
    }
  }

  /** The parser accepts exactly the bytes that the documented format describes, in which no
      byte has two owners, and whose empty module table, if it is empty, is clear. */
  lemma AcceptedExactly(bytes: seq<u8>, img: SystemImage)
    ensures IsImage(bytes, img) <==> Describes(bytes, img) && LaidOut(img) && EmptyTableClear(img)
  {
    DecodesExactly(bytes, img);
    ImagesExactly(bytes, img);
    if Decodes(bytes, img) {
      assert img.bytes == bytes;
      LaidOutExactly(img);
    }
    EmptyTableExactly(img);
    hide Decodes, Describes, IsImage, LaidOut, EmptyTableClear, PartsFit, BytesHaveOneOwner, ClearOf;
  }
}
