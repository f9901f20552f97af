/** The fixed-width records of a system image and of boot info
    (crates/minemu-platform/src/image.rs). */
module Records {
  import opened Platform
  import opened Bytes
  import opened Memory

  const IMAGE_MAGIC: u32 := 0x4d45_4d55
  const BOOT_INFO_MAGIC: u32 := 0x4d42_4f4f
  const ABI_VERSION := 1
  const HEADER_SIZE := 64
  const RECORD_SIZE := 32
  const BOOT_INFO_SIZE := 64

  // ---- Words ----

  /** Little-endian words laid end to end. */
  function Serialize(words: seq<u32>): (bytes: seq<u8>)
    ensures |bytes| == 4 * |words|
  {
    if words == [] then [] else Le32(words[0]) + Serialize(words[1..])
  }

  /** `read_u32` of word `i`. */
  function WordAt(bytes: seq<u8>, i: nat): u32
    requires 4 * i + 4 <= |bytes|
  {
    FromLe32(bytes[4 * i..4 * i + 4])
  }

  /** `read_u16`. */
  function HalfAt(bytes: seq<u8>, offset: nat): int
    requires offset + 2 <= |bytes|
  {
    var low: int, high: int := bytes[offset], bytes[offset + 1];
    low + 256 * high
  }

  predicate ReservedZero(bytes: seq<u8>, offset: nat, length: nat)
    requires offset + length <= |bytes|
  {
    forall i | offset <= i < offset + length :: bytes[i] == 0
  }

  lemma {:induction false} SerializedWord(words: seq<u32>, i: nat)
    requires i < |words|
    ensures Serialize(words)[4 * i..4 * i + 4] == Le32(words[i]) && WordAt(Serialize(words), i) == words[i]
  {
    var bytes, rest := Serialize(words), Serialize(words[1..]);
    Le32RoundTrip(words[i]);
    if i == 0 {
      assert bytes[0..4] == Le32(words[0]);
    } else {
      SerializedWord(words[1..], i - 1);
      hide Le32, FromLe32;
      assert bytes[4 * i..4 * i + 4] == rest[4 * (i - 1)..4 * (i - 1) + 4];
    }
  }

  /** Bytes are determined by their words. */
  lemma {:induction false} SameWordsSameBytes(bytes: seq<u8>, words: seq<u32>)
    requires |bytes| == 4 * |words| && forall i | 0 <= i < |words| :: WordAt(bytes, i) == words[i]
    ensures bytes == Serialize(words)
    decreases |words|
  {
    if words != [] {
      var rest := bytes[4..];
      FromLe32RoundTrip(bytes[0..4]);
      assert WordAt(bytes, 0) == words[0];
      forall i | 0 <= i < |words| - 1
        ensures WordAt(rest, i) == words[1..][i]
      {
        assert rest[4 * i..4 * i + 4] == bytes[4 * (i + 1)..4 * (i + 1) + 4];
        assert WordAt(bytes, i + 1) == words[i + 1];
      }
      SameWordsSameBytes(rest, words[1..]);
      assert bytes == bytes[0..4] + rest;
    }
  }

  lemma ZeroWord(bytes: seq<u8>, i: nat)
    requires 4 * i + 4 <= |bytes|
    ensures WordAt(bytes, i) == 0 <==> ReservedZero(bytes, 4 * i, 4)
  {}

  // ---- In-place encoding ----

  /** The bytes of `a` are those words. */
  ghost predicate Holds(a: array<u8>, words: seq<u32>)
    reads a
  {
    a[..] == Serialize(words)
  }

  /** `write_u32` of word `i`: the other words stay as they are. */
  method WriteWord(a: array<u8>, ghost words: seq<u32>, i: nat, value: u32) returns (ghost after: seq<u32>)
    requires Holds(a, words) && i < |words|
    modifies a
    ensures after == words[i := value] && Holds(a, after)
  {
    var data := Le32(value);
    hide Le32;
    a[4 * i], a[4 * i + 1], a[4 * i + 2], a[4 * i + 3] := data[0], data[1], data[2], data[3];
    after := words[i := value];
    forall j | 0 <= j < |after|
      ensures WordAt(a[..], j) == after[j]
    {
      SerializedWord(words, j);
      Le32RoundTrip(value);
      if j == i {
        assert a[..][4 * j..4 * j + 4] == data;
      } else {
        assert a[..][4 * j..4 * j + 4] == Serialize(words)[4 * j..4 * j + 4];
      }
    }
    SameWordsSameBytes(a[..], after);
  }

  /** The first `i` of those words, and zeros behind them. */
  ghost predicate Begun(a: array<u8>, words: seq<u32>, i: nat)
    requires i <= |words|
    reads a
  {
    Holds(a, words[..i] + Zeros(|words| - i))
  }

  /** Writes the next word of a zeroed record. */
  method WriteNext(a: array<u8>, ghost words: seq<u32>, i: nat, value: u32)
    requires i < |words| && words[i] == value && Begun(a, words, i)
    modifies a
    ensures Begun(a, words, i + 1)
  {
    ghost var after := WriteWord(a, words[..i] + Zeros(|words| - i), i, value);
    assert after == words[..i + 1] + Zeros(|words| - (i + 1));
  }

  /** `write_u16` of both halves of word `i`, each below 256. */
  method WriteHalves(a: array<u8>, ghost words: seq<u32>, i: nat, low: u8, high: u8)
    requires i < |words| && words[i] == low + 0x1_0000 * high && Begun(a, words, i)
    modifies a
    ensures Begun(a, words, i + 1)
  {
    WriteNext(a, words, i, low + 0x1_0000 * high);
  }

  method BlankRecord(n: nat, ghost words: seq<u32>) returns (a: array<u8>)
    requires |words| == n
    ensures fresh(a) && Begun(a, words, 0)
  {
    ghost var zeros;
    a, zeros := ZeroedRecord(n);
    assert words[..0] + Zeros(n) == zeros;
  }

  lemma Finished(a: array<u8>, words: seq<u32>, i: nat)
    requires i <= |words| && Begun(a, words, i) && forall j | i <= j < |words| :: words[j] == 0
    ensures Holds(a, words)
  {
    assert words[..i] + Zeros(|words| - i) == words;
  }

  // ---- Records ----

  datatype ImageHeader = ImageHeader(
    imageSize: u32, kernelTableOffset: u32, kernelCount: u32, moduleTableOffset: u32,
    moduleCount: u32, bootstrapEntry: u32, kernelEntry: u32, bootInfo: u32)
  {
    /** `validate`. */
    predicate Valid() {
      && HEADER_SIZE <= imageSize <= SYSTEM_ROM_SIZE
      && bootstrapEntry == BOOTSTRAP_ENTRY_PADDR && bootInfo == BOOT_INFO_PADDR
      && DirectMapPhysical(kernelEntry).Some?
      && kernelTableOffset + kernelCount * RECORD_SIZE <= imageSize
      && moduleTableOffset + moduleCount * RECORD_SIZE <= imageSize
    }

    function Words(): seq<u32> {
      [IMAGE_MAGIC, ABI_VERSION + 0x1_0000 * HEADER_SIZE, imageSize, kernelTableOffset, kernelCount, moduleTableOffset,
       moduleCount, bootstrapEntry, kernelEntry, bootInfo, 0, 0, 0, 0, 0, 0]
    }
  }

  function DecodeHeader(bytes: seq<u8>): Option<ImageHeader> {
    if |bytes| < HEADER_SIZE then None
    else if WordAt(bytes, 0) != IMAGE_MAGIC then None
    else if HalfAt(bytes, 4) != ABI_VERSION || HalfAt(bytes, 6) != HEADER_SIZE then None
    else if WordAt(bytes, 10) != 0 || !ReservedZero(bytes, 44, 20) then None
    else
      var h := ImageHeader(WordAt(bytes, 2), WordAt(bytes, 3), WordAt(bytes, 4), WordAt(bytes, 5),
                           WordAt(bytes, 6), WordAt(bytes, 7), WordAt(bytes, 8), WordAt(bytes, 9));
      if h.Valid() then Some(h) else None
  }

  datatype KernelSegment = KernelSegment(
    dataOffset: u32, physicalAddress: u32, virtualAddress: u32, fileSize: u32, memorySize: u32, flags: u32)
  {
    /** `validate`: sizes, flags, a RAM load range, and an identity or direct-map address. */
    predicate Valid() {
      && memorySize != 0 && fileSize <= memorySize && flags <= 7
      && InRam(physicalAddress, memorySize)
      && (virtualAddress == physicalAddress || DirectMapPhysical(virtualAddress) == Some(physicalAddress))
    }

    predicate Executable() { flags / 4 % 2 == 1 }

    function Words(): seq<u32> {
      [dataOffset, physicalAddress, virtualAddress, fileSize, memorySize, flags, 0, 0]
    }
  }

  function DecodeKernelSegment(bytes: seq<u8>): Option<KernelSegment> {
    if |bytes| < RECORD_SIZE then None
    else if !ReservedZero(bytes, 24, 8) then None
    else
      var s := KernelSegment(WordAt(bytes, 0), WordAt(bytes, 1), WordAt(bytes, 2),
                             WordAt(bytes, 3), WordAt(bytes, 4), WordAt(bytes, 5));
      if s.Valid() then Some(s) else None
  }

  datatype ModuleRecord = ModuleRecord(
    nameOffset: u32, nameLength: u32, segmentTableOffset: u32, segmentCount: u32, entry: u32)
  {
    function Words(): seq<u32> {
      [nameOffset, nameLength, segmentTableOffset, segmentCount, entry, 0, 0, 0]
    }
  }

  function DecodeModuleRecord(bytes: seq<u8>): Option<ModuleRecord> {
    if |bytes| < RECORD_SIZE then None
    else if WordAt(bytes, 5) != 0 || !ReservedZero(bytes, 24, 8) then None
    else Some(ModuleRecord(WordAt(bytes, 0), WordAt(bytes, 1), WordAt(bytes, 2), WordAt(bytes, 3), WordAt(bytes, 4)))
  }

  datatype ModuleSegment = ModuleSegment(
    dataOffset: u32, virtualAddress: u32, fileSize: u32, memorySize: u32, flags: u32)
  {
    predicate Valid() { memorySize != 0 && fileSize <= memorySize && flags <= 7 }

    predicate Executable() { flags / 4 % 2 == 1 }

    function Words(): seq<u32> {
      [dataOffset, virtualAddress, fileSize, memorySize, flags, 0, 0, 0]
    }
  }

  function DecodeModuleSegment(bytes: seq<u8>): Option<ModuleSegment> {
    if |bytes| < RECORD_SIZE then None
    else if !ReservedZero(bytes, 20, 12) then None
    else
      var s := ModuleSegment(WordAt(bytes, 0), WordAt(bytes, 1), WordAt(bytes, 2), WordAt(bytes, 3), WordAt(bytes, 4));
      if s.Valid() then Some(s) else None
  }

  datatype BootInfo = BootInfo(systemRomBase: u32, imageSize: u32, moduleTableOffset: u32, moduleCount: u32) {
    predicate Valid() { systemRomBase == SYSTEM_ROM_BASE && imageSize <= SYSTEM_ROM_SIZE }

    function Words(): seq<u32> {
      [BOOT_INFO_MAGIC, ABI_VERSION + 0x1_0000 * BOOT_INFO_SIZE, systemRomBase, imageSize, moduleTableOffset, moduleCount,
       DIRECT_MAP_BASE, RAM_BASE, RAM_SIZE, 0, 0, 0, 0, 0, 0, 0]
    }
  }

  /** `BootInfo::decode`, which does not bound the image size. */
  function DecodeBootInfo(bytes: seq<u8>): Option<BootInfo> {
    if |bytes| < BOOT_INFO_SIZE then None
    else if WordAt(bytes, 0) != BOOT_INFO_MAGIC || HalfAt(bytes, 4) != ABI_VERSION || HalfAt(bytes, 6) != BOOT_INFO_SIZE
      || WordAt(bytes, 9) != 0 || !ReservedZero(bytes, 40, 24) then None
    else
      var info := BootInfo(WordAt(bytes, 2), WordAt(bytes, 3), WordAt(bytes, 4), WordAt(bytes, 5));
      if info.systemRomBase != SYSTEM_ROM_BASE || WordAt(bytes, 6) != DIRECT_MAP_BASE
        || WordAt(bytes, 7) != RAM_BASE || WordAt(bytes, 8) != RAM_SIZE then None
      else Some(info)
  }

  // ---- Encoding ----

  method ZeroedRecord(n: nat) returns (a: array<u8>, ghost words: seq<u32>)
    ensures fresh(a) && words == Zeros(n) && Holds(a, words)
  {
    a := new u8[4 * n](_ => 0);
    words := Zeros(n);
    forall i: nat | i < n ensures WordAt(a[..], i) == 0 { ZeroWord(a[..], i); }
    SameWordsSameBytes(a[..], words);
  }

  lemma HeaderWords(h: ImageHeader)
    ensures var w := h.Words();
      && |w| == 16 && (forall i | 10 <= i < 16 :: w[i] == 0)
      && w[0] == IMAGE_MAGIC && w[1] == ABI_VERSION + 0x1_0000 * HEADER_SIZE && w[2] == h.imageSize && w[3] == h.kernelTableOffset
      && w[4] == h.kernelCount && w[5] == h.moduleTableOffset && w[6] == h.moduleCount && w[7] == h.bootstrapEntry
      && w[8] == h.kernelEntry && w[9] == h.bootInfo
  {}

  /** `ImageHeader::encode`; an invalid header is refused. */
  method EncodeHeader(h: ImageHeader) returns (r: Option<array<u8>>)
    ensures r.Some? <==> h.Valid()
    ensures r.Some? ==> fresh(r.value) && Holds(r.value, h.Words())
  {
    if !h.Valid() { return None; }
    hide Holds, ImageHeader.Valid, ImageHeader.Words, Zeros, Begun;
    HeaderWords(h);
    ghost var words := h.Words();
    var a := BlankRecord(16, words);
    WriteNext(a, words, 0, IMAGE_MAGIC);
    WriteHalves(a, words, 1, ABI_VERSION, HEADER_SIZE);
    WriteNext(a, words, 2, h.imageSize);
    WriteNext(a, words, 3, h.kernelTableOffset);
    WriteNext(a, words, 4, h.kernelCount);
    WriteNext(a, words, 5, h.moduleTableOffset);
    WriteNext(a, words, 6, h.moduleCount);
    WriteNext(a, words, 7, h.bootstrapEntry);
    WriteNext(a, words, 8, h.kernelEntry);
    WriteNext(a, words, 9, h.bootInfo);
    Finished(a, words, 10);
    return Some(a);
  }

  lemma KernelSegmentWords(s: KernelSegment)
    ensures var w := s.Words();
      && |w| == 8 && (forall i | 6 <= i < 8 :: w[i] == 0)
      && w[0] == s.dataOffset && w[1] == s.physicalAddress && w[2] == s.virtualAddress && w[3] == s.fileSize
      && w[4] == s.memorySize && w[5] == s.flags
  {}

  method EncodeKernelSegment(s: KernelSegment) returns (r: Option<array<u8>>)
    ensures r.Some? <==> s.Valid()
    ensures r.Some? ==> fresh(r.value) && Holds(r.value, s.Words())
  {
    if !s.Valid() { return None; }
    hide Holds, Zeros, Begun, KernelSegment.Valid, KernelSegment.Words;
    KernelSegmentWords(s);
    ghost var words := s.Words();
    var a := BlankRecord(8, words);
    WriteNext(a, words, 0, s.dataOffset);
    WriteNext(a, words, 1, s.physicalAddress);
    WriteNext(a, words, 2, s.virtualAddress);
    WriteNext(a, words, 3, s.fileSize);
    WriteNext(a, words, 4, s.memorySize);
    WriteNext(a, words, 5, s.flags);
    Finished(a, words, 6);
    return Some(a);
  }

  lemma ModuleRecordWords(r: ModuleRecord)
    ensures var w := r.Words();
      && |w| == 8 && (forall i | 5 <= i < 8 :: w[i] == 0)
      && w[0] == r.nameOffset && w[1] == r.nameLength && w[2] == r.segmentTableOffset && w[3] == r.segmentCount
      && w[4] == r.entry
  {}

  method EncodeModuleRecord(r: ModuleRecord) returns (a: array<u8>)
    ensures fresh(a) && Holds(a, r.Words())
  {
    hide Holds, Zeros, Begun, ModuleRecord.Words;
    ModuleRecordWords(r);
    ghost var words := r.Words();
    a := BlankRecord(8, words);
    WriteNext(a, words, 0, r.nameOffset);
    WriteNext(a, words, 1, r.nameLength);
    WriteNext(a, words, 2, r.segmentTableOffset);
    WriteNext(a, words, 3, r.segmentCount);
    WriteNext(a, words, 4, r.entry);
    Finished(a, words, 5);
  }

  lemma ModuleSegmentWords(s: ModuleSegment)
    ensures var w := s.Words();
      && |w| == 8 && (forall i | 5 <= i < 8 :: w[i] == 0)
      && w[0] == s.dataOffset && w[1] == s.virtualAddress && w[2] == s.fileSize && w[3] == s.memorySize
      && w[4] == s.flags
  {}

  method EncodeModuleSegment(s: ModuleSegment) returns (r: Option<array<u8>>)
    ensures r.Some? <==> s.Valid()
    ensures r.Some? ==> fresh(r.value) && Holds(r.value, s.Words())
  {
    if !s.Valid() { return None; }
    hide Holds, Zeros, Begun, ModuleSegment.Valid, ModuleSegment.Words;
    ModuleSegmentWords(s);
    ghost var words := s.Words();
    var a := BlankRecord(8, words);
    WriteNext(a, words, 0, s.dataOffset);
    WriteNext(a, words, 1, s.virtualAddress);
    WriteNext(a, words, 2, s.fileSize);
    WriteNext(a, words, 3, s.memorySize);
    WriteNext(a, words, 4, s.flags);
    Finished(a, words, 5);
    return Some(a);
  }

  lemma BootInfoWords(info: BootInfo)
    ensures var w := info.Words();
      && |w| == 16 && (forall i | 9 <= i < 16 :: w[i] == 0)
      && w[0] == BOOT_INFO_MAGIC && w[1] == ABI_VERSION + 0x1_0000 * BOOT_INFO_SIZE && w[2] == info.systemRomBase && w[3] == info.imageSize
      && w[4] == info.moduleTableOffset && w[5] == info.moduleCount && w[6] == DIRECT_MAP_BASE && w[7] == RAM_BASE
      && w[8] == RAM_SIZE
  {}

  method EncodeBootInfo(info: BootInfo) returns (r: Option<array<u8>>)
    ensures r.Some? <==> info.Valid()
    ensures r.Some? ==> fresh(r.value) && Holds(r.value, info.Words())
  {
    if !info.Valid() { return None; }
    hide Holds, BootInfo.Valid, BootInfo.Words, Zeros, Begun;
    BootInfoWords(info);
    ghost var words := info.Words();
    var a := BlankRecord(16, words);
    WriteNext(a, words, 0, BOOT_INFO_MAGIC);
    WriteHalves(a, words, 1, ABI_VERSION, BOOT_INFO_SIZE);
    WriteNext(a, words, 2, info.systemRomBase);
    WriteNext(a, words, 3, info.imageSize);
    WriteNext(a, words, 4, info.moduleTableOffset);
    WriteNext(a, words, 5, info.moduleCount);
    WriteNext(a, words, 6, DIRECT_MAP_BASE);
    WriteNext(a, words, 7, RAM_BASE);
    WriteNext(a, words, 8, RAM_SIZE);
    Finished(a, words, 9);
    return Some(a);
  }

  // ---- Decoding inverts encoding, and accepts nothing else ----

  lemma HalvesOfWord(bytes: seq<u8>, low: int, high: int)
    requires |bytes| >= 8 && 0 <= low < 256 && 0 <= high < 256
    ensures WordAt(bytes, 1) == low + 0x1_0000 * high <==> HalfAt(bytes, 4) == low && HalfAt(bytes, 6) == high
  {}

  lemma WordsMatch(bytes: seq<u8>, words: seq<u32>)
    requires |bytes| == 4 * |words|
    ensures bytes == Serialize(words) <==> forall i | 0 <= i < |words| :: WordAt(bytes, i) == words[i]
  {
    if bytes == Serialize(words) {
      forall i | 0 <= i < |words| ensures WordAt(bytes, i) == words[i] { SerializedWord(words, i); }
    } else if forall i | 0 <= i < |words| :: WordAt(bytes, i) == words[i] {
      SameWordsSameBytes(bytes, words);
    }
  }

  lemma KernelSegmentCodec(bytes: seq<u8>, s: KernelSegment)
    requires |bytes| == RECORD_SIZE
    ensures DecodeKernelSegment(bytes) == Some(s) <==> s.Valid() && bytes == Serialize(s.Words())
  {
    WordsMatch(bytes, s.Words());
    ZeroWord(bytes, 6);
    ZeroWord(bytes, 7);
    hide WordAt, Serialize, KernelSegment.Valid;
    assert ReservedZero(bytes, 24, 8) <==> ReservedZero(bytes, 24, 4) && ReservedZero(bytes, 28, 4);
  }

  lemma ModuleRecordCodec(bytes: seq<u8>, r: ModuleRecord)
    requires |bytes| == RECORD_SIZE
    ensures DecodeModuleRecord(bytes) == Some(r) <==> bytes == Serialize(r.Words())
  {
    WordsMatch(bytes, r.Words());
    ZeroWord(bytes, 6);
    ZeroWord(bytes, 7);
    hide WordAt, Serialize;
    assert ReservedZero(bytes, 24, 8) <==> ReservedZero(bytes, 24, 4) && ReservedZero(bytes, 28, 4);
  }

  lemma ModuleSegmentCodec(bytes: seq<u8>, s: ModuleSegment)
    requires |bytes| == RECORD_SIZE
    ensures DecodeModuleSegment(bytes) == Some(s) <==> s.Valid() && bytes == Serialize(s.Words())
  {
    WordsMatch(bytes, s.Words());
    ZeroWord(bytes, 5);
    ZeroWord(bytes, 6);
    ZeroWord(bytes, 7);
    hide WordAt, Serialize;
    assert ReservedZero(bytes, 20, 12) <==>
      ReservedZero(bytes, 20, 4) && ReservedZero(bytes, 24, 4) && ReservedZero(bytes, 28, 4);
  }

  /** The header is decoded from the front of an image of any length. */
  lemma HeaderCodec(bytes: seq<u8>, h: ImageHeader)
    requires |bytes| >= HEADER_SIZE
    ensures DecodeHeader(bytes) == Some(h) <==> h.Valid() && bytes[..HEADER_SIZE] == Serialize(h.Words())
  {
    hide FromLe32, Serialize, ImageHeader.Valid;
    var front := bytes[..HEADER_SIZE];
    WordsMatch(front, h.Words());
    forall i: nat | i < 16 ensures WordAt(front, i) == WordAt(bytes, i) {
      SliceOfSlice(bytes, 0, HEADER_SIZE, 4 * i, 4 * i + 4);
    }
    HalvesOfWord(bytes, ABI_VERSION, HEADER_SIZE);
    ZeroWord(bytes, 11);
    ZeroWord(bytes, 12);
    ZeroWord(bytes, 13);
    ZeroWord(bytes, 14);
    ZeroWord(bytes, 15);
    hide WordAt, HalfAt;
    assert ReservedZero(bytes, 44, 20) <==>
      ReservedZero(bytes, 44, 4) && ReservedZero(bytes, 48, 4) && ReservedZero(bytes, 52, 4)
      && ReservedZero(bytes, 56, 4) && ReservedZero(bytes, 60, 4);
  }

  /** Boot info is decoded from the front of a longer string too; only its encoder bounds the
      image size. */
  lemma BootInfoCodec(bytes: seq<u8>, info: BootInfo)
    requires |bytes| >= BOOT_INFO_SIZE
    ensures DecodeBootInfo(bytes) == Some(info)
       <==> info.systemRomBase == SYSTEM_ROM_BASE && bytes[..BOOT_INFO_SIZE] == Serialize(info.Words())
  {
    hide FromLe32, Serialize;
    var front := bytes[..BOOT_INFO_SIZE];
    WordsMatch(front, info.Words());
    forall i: nat | i < 16 ensures WordAt(front, i) == WordAt(bytes, i) {
      SliceOfSlice(bytes, 0, BOOT_INFO_SIZE, 4 * i, 4 * i + 4);
    }
    HalvesOfWord(bytes, ABI_VERSION, BOOT_INFO_SIZE);
    ZeroWord(bytes, 10);
    ZeroWord(bytes, 11);
    ZeroWord(bytes, 12);
    ZeroWord(bytes, 13);
    ZeroWord(bytes, 14);
    ZeroWord(bytes, 15);
    hide WordAt, HalfAt;
    assert ReservedZero(bytes, 40, 24) <==>
      ReservedZero(bytes, 40, 4) && ReservedZero(bytes, 44, 4) && ReservedZero(bytes, 48, 4)
      && ReservedZero(bytes, 52, 4) && ReservedZero(bytes, 56, 4) && ReservedZero(bytes, 60, 4);
  }
}
