/** A packed image parses, and parses back to what was packed. */
module ImageRoundTrip {
  import opened Platform
  import opened Bytes
  import opened Records
  import opened Validation
  import opened ImageFormat
  import opened Layout
  import opened ImagePack

  function KernelInputs(p: Input): seq<KernelSegment> {
    seq(|p.kernel|, i requires 0 <= i < |p.kernel| => p.kernel[i].record)
  }

  function SegmentInputs(m: ModuleInput): seq<ModuleSegment> {
    seq(|m.segments|, j requires 0 <= j < |m.segments| => m.segments[j].record)
  }

  function PlacedKernels(p: Input): seq<KernelSegment>
    requires Fits32(Total(p))
  {
    seq(|p.kernel|, i requires 0 <= i < |p.kernel| => PlacedKernel(p, i))
  }

  function PlacedSegments(p: Input, m: nat): seq<ModuleSegment>
    requires m < |p.modules| && Fits32(Total(p))
  {
    seq(|p.modules[m].segments|, j requires 0 <= j < |p.modules[m].segments| => PlacedSegment(p, m, j))
  }

  function ParsedModules(p: Input): seq<ImageModule>
    requires Fits32(Total(p))
  {
    seq(|p.modules|, m requires 0 <= m < |p.modules| =>
      ImageModule(p.modules[m].name, PlacedModule(p, m), PlacedSegments(p, m)))
  }

  /** The image that packing should give: the inputs with their data offsets assigned. */
  function Expected(p: Input): SystemImage
    requires Fits32(Total(p))
  {
    SystemImage(Pack(p), HeaderOf(p), PlacedKernels(p), ParsedModules(p))
  }

  /** Every record's file size is the length of its data. */
  ghost predicate SizesMatch(p: Input) {
    && (forall i | 0 <= i < |p.kernel| :: p.kernel[i].record.fileSize == |p.kernel[i].data|)
    && forall m, j | 0 <= m < |p.modules| && 0 <= j < |p.modules[m].segments| ::
         p.modules[m].segments[j].record.fileSize == |p.modules[m].segments[j].data|
  }

  ghost predicate GoodModule(m: ModuleInput) {
    && m.name != [] && ValidUtf8(m.name)
    && (forall j | 0 <= j < |m.segments| :: m.segments[j].record.Valid())
    && ValidModuleRecords(SegmentInputs(m), m.entry)
  }

  ghost predicate NamesDistinct(modules: seq<ModuleInput>) {
    forall i, j | 0 <= i < j < |modules| :: modules[i].name != modules[j].name
  }

  /** What the packer needs of its inputs. */
  ghost predicate Good(p: Input) {
    && Total(p) <= SYSTEM_ROM_SIZE && DirectMapPhysical(p.entry).Some?
    && (forall i | 0 <= i < |p.kernel| :: p.kernel[i].record.Valid())
    && ValidKernelRecords(KernelInputs(p), p.entry)
    && (forall m | 0 <= m < |p.modules| :: GoodModule(p.modules[m]))
    && NamesDistinct(p.modules)
  }

  // ---- Validation ignores data offsets ----

  ghost predicate SameKernel(a: KernelSegment, b: KernelSegment) { a.(dataOffset := 0) == b.(dataOffset := 0) }

  ghost predicate SameModule(a: ModuleSegment, b: ModuleSegment) { a.(dataOffset := 0) == b.(dataOffset := 0) }

  lemma SameKernelChecks(a: KernelSegment, b: KernelSegment, entry: u32)
    requires SameKernel(a, b)
    ensures IsKernelEntry(a, entry) == IsKernelEntry(b, entry) && IsBootstrap(a) == IsBootstrap(b)
    ensures KernelPlaced(a) == KernelPlaced(b)
    ensures PhysicalExtent(a) == PhysicalExtent(b) && VirtualExtent(a) == VirtualExtent(b)
  {}

  lemma KernelValidityIgnoresOffsets(a: seq<KernelSegment>, b: seq<KernelSegment>, entry: u32)
    requires |a| == |b| && forall i | 0 <= i < |a| :: SameKernel(a[i], b[i])
    requires ValidKernelRecords(a, entry)
    ensures ValidKernelRecords(b, entry)
  {
    hide IsKernelEntry, IsBootstrap, KernelPlaced, PhysicalExtent, VirtualExtent, SameKernel;
    forall i | 0 <= i < |a|
      ensures IsKernelEntry(a[i], entry) == IsKernelEntry(b[i], entry) && IsBootstrap(a[i]) == IsBootstrap(b[i])
      ensures KernelPlaced(a[i]) == KernelPlaced(b[i])
      ensures PhysicalExtent(a[i]) == PhysicalExtent(b[i]) && VirtualExtent(a[i]) == VirtualExtent(b[i])
    {
      SameKernelChecks(a[i], b[i], entry);
    }
    var s :| s in a && IsKernelEntry(s, entry);
    var i :| 0 <= i < |a| && a[i] == s;
    assert b[i] in b && IsKernelEntry(b[i], entry);
    var t :| t in a && IsBootstrap(t);
    var j :| 0 <= j < |a| && a[j] == t;
    assert b[j] in b && IsBootstrap(b[j]);
  }

  lemma ModuleValidityIgnoresOffsets(a: seq<ModuleSegment>, b: seq<ModuleSegment>, entry: u32)
    requires |a| == |b| && forall i | 0 <= i < |a| :: SameModule(a[i], b[i])
    requires ValidModuleRecords(a, entry)
    ensures ValidModuleRecords(b, entry)
  {
    var s :| s in a && IsModuleEntry(s, entry);
    var i :| 0 <= i < |a| && a[i] == s;
    assert b[i] in b && IsModuleEntry(b[i], entry);
    forall k | 0 <= k < |b| ensures ModulePlaced(b[k]) { assert ModulePlaced(a[k]) && SameModule(a[k], b[k]); }
    assert forall k | 0 <= k < |b| :: SameModule(a[k], b[k]) && ModuleExtent(a[k]) == ModuleExtent(b[k]);
  }

  // ---- Every record decodes ----

  lemma HeaderDecodes(p: Input)
    requires Good(p)
    ensures DecodeHeader(Pack(p)) == Some(HeaderOf(p)) && |Pack(p)| == Total(p)
  {
    hide Total, Serialize, Pack, HeaderOf, GoodModule, ValidKernelRecords;
    ZonesInOrder(p);
    ZoneOffset(p, 0);
    HeaderAt(p);
    HeaderOfGoodIsValid(p);
    HeaderCodec(Pack(p), HeaderOf(p));
  }

  lemma HeaderOfGoodIsValid(p: Input)
    requires Good(p)
    ensures HeaderOf(p).Valid()
  {
    hide GoodModule, ValidKernelRecords;
    ZonesInOrder(p);
    hide Total, NamesEnd, DataStart, ModuleDataStart;
  }

  lemma RecordSlice(bytes: seq<u8>, table: nat, i: nat, data: seq<u8>)
    requires At(bytes, table + RECORD_SIZE * i, data) && |data| == RECORD_SIZE
    ensures table + (i + 1) * RECORD_SIZE <= |bytes| && Record(bytes, table, i) == data
  {}

  lemma PlacedKernelRecordsValid(p: Input)
    requires Fits32(Total(p)) && forall i | 0 <= i < |p.kernel| :: p.kernel[i].record.Valid()
    ensures forall i | 0 <= i < |p.kernel| :: PlacedKernel(p, i).Valid()
  {
    hide Total, KernelDataOff;
  }

  lemma KernelTableDecodes(p: Input)
    requires Fits32(Total(p)) && forall i | 0 <= i < |p.kernel| :: p.kernel[i].record.Valid()
    ensures KernelTable(Pack(p), HEADER_SIZE, PlacedKernels(p))
  {
    hide Total, Serialize, Pack, DecodeKernelSegment, PlacedKernel, KernelSegment.Valid;
    ZonesInOrder(p);
    ZoneOffset(p, 0);
    PlacedKernelRecordsValid(p);
    forall i | 0 <= i < |p.kernel|
      ensures HEADER_SIZE + (i + 1) * RECORD_SIZE <= |Pack(p)|
      ensures DecodeKernelSegment(Record(Pack(p), HEADER_SIZE, i)) == Some(PlacedKernel(p, i))
    {
      KernelRecordAt(p, i);
      RecordSlice(Pack(p), HEADER_SIZE, i, Serialize(PlacedKernel(p, i).Words()));
      KernelSegmentCodec(Record(Pack(p), HEADER_SIZE, i), PlacedKernel(p, i));
    }
  }

  lemma PlacedSegmentsValid(p: Input, m: nat)
    requires Fits32(Total(p)) && m < |p.modules|
    requires forall j | 0 <= j < |p.modules[m].segments| :: p.modules[m].segments[j].record.Valid()
    ensures forall j | 0 <= j < |p.modules[m].segments| :: PlacedSegment(p, m, j).Valid()
  {
    hide Total, SegmentDataOff;
  }

  lemma SegmentTableDecodes(p: Input, m: nat)
    requires Fits32(Total(p)) && m < |p.modules|
    requires forall j | 0 <= j < |p.modules[m].segments| :: p.modules[m].segments[j].record.Valid()
    ensures SegmentTable(Pack(p), SegmentTableOff(p, m), PlacedSegments(p, m))
  {
    hide Total, Serialize, Pack, DecodeModuleSegment, SegmentTableOff, NameOff, NamesStart, NamesEnd, PlacedSegment,
         ModuleSegment.Valid;
    PlacedSegmentsValid(p, m);
    OffsetsInside(p, m);
    ZonesInOrder(p);
    ZoneOffset(p, 0);
    var table := SegmentTableOff(p, m);
    forall j | 0 <= j < |p.modules[m].segments|
      ensures table + (j + 1) * RECORD_SIZE <= |Pack(p)|
      ensures DecodeModuleSegment(Record(Pack(p), table, j)) == Some(PlacedSegment(p, m, j))
    {
      SegmentRecordAt(p, m, j);
      RecordSlice(Pack(p), table, j, Serialize(PlacedSegment(p, m, j).Words()));
      ModuleSegmentCodec(Record(Pack(p), table, j), PlacedSegment(p, m, j));
    }
  }

  lemma ModuleRecordDecodes(p: Input, m: nat)
    requires Fits32(Total(p)) && m < |p.modules|
    ensures ModuleTableStart(p) + (m + 1) * RECORD_SIZE <= |Pack(p)|
    ensures DecodeModuleRecord(Record(Pack(p), ModuleTableStart(p), m)) == Some(PlacedModule(p, m))
  {
    hide Total, Serialize, Pack, PlacedModule, DecodeModuleRecord;
    ModuleRecordAt(p, m);
    RecordSlice(Pack(p), ModuleTableStart(p), m, Serialize(PlacedModule(p, m).Words()));
    ModuleRecordCodec(Record(Pack(p), ModuleTableStart(p), m), PlacedModule(p, m));
  }

  lemma ModuleNameIsFound(p: Input, m: nat)
    requires Fits32(Total(p)) && m < |p.modules|
    ensures var r := PlacedModule(p, m);
      NameSpan(r).end <= |Pack(p)| && Pack(p)[r.nameOffset..NameSpan(r).end] == p.modules[m].name
  {
    NameAt(p, m);
    hide Total, Pack, NameOff, SegmentTableOff;
  }

  lemma ModuleDecodes(p: Input, m: nat)
    requires Good(p) && m < |p.modules|
    ensures ModuleTableStart(p) + (m + 1) * RECORD_SIZE <= |Pack(p)|
    ensures IsModule(Pack(p), Record(Pack(p), ModuleTableStart(p), m), ParsedModules(p)[m])
  {
    hide Total, Pack, SegmentTableOff, NameOff, SegmentTable, DecodeModuleRecord, ValidModuleRecords, Record, NameSpan,
         ValidUtf8, ValidKernelRecords;
    ModuleRecordDecodes(p, m);
    ModuleNameIsFound(p, m);
    assert GoodModule(p.modules[m]);
    SegmentTableDecodes(p, m);
    PlacedModuleValid(p, m);
  }

  lemma PlacedModuleValid(p: Input, m: nat)
    requires Fits32(Total(p)) && m < |p.modules| && ValidModuleRecords(SegmentInputs(p.modules[m]), p.modules[m].entry)
    ensures ValidModuleRecords(PlacedSegments(p, m), p.modules[m].entry)
  {
    hide Total, SegmentDataOff, ValidModuleRecords;
    ModuleValidityIgnoresOffsets(SegmentInputs(p.modules[m]), PlacedSegments(p, m), p.modules[m].entry);
  }

  // ---- Nothing overlaps ----

  predicate Within(s: Span, low: nat, high: nat) { low <= s.start <= s.end <= high }

  ghost predicate AllWithin(spans: seq<Span>, low: nat, high: nat) {
    forall i | 0 <= i < |spans| :: Within(spans[i], low, high)
  }

  lemma PackedAppend(a: seq<Span>, b: seq<Span>, size: nat)
    requires Packed(a, size) && Packed(b, size)
    requires forall i, j | 0 <= i < |a| && 0 <= j < |b| :: !a[i].Overlaps(b[j])
    ensures Packed(a + b, size)
  {
    var s := a + b;
    forall i, j | 0 <= i < j < |s| ensures !s[i].Overlaps(s[j]) {
      if i < |a| && j >= |a| { assert !a[i].Overlaps(b[j - |a|]); }
      else if i >= |a| { assert !b[i - |a|].Overlaps(b[j - |a|]); }
      else { assert !a[i].Overlaps(a[j]); }
    }
    forall i | 0 <= i < |s| ensures s[i].end <= size {
      if i < |a| { assert a[i].end <= size; } else { assert b[i - |a|].end <= size; }
    }
  }

  /** Appending spans of a later stretch. */
  lemma PackedAfter(a: seq<Span>, b: seq<Span>, low: nat, middle: nat, high: nat, size: nat)
    requires Packed(a, size) && AllWithin(a, low, middle) && Packed(b, size) && AllWithin(b, middle, high)
    requires low <= middle <= high
    ensures Packed(a + b, size) && AllWithin(a + b, low, high)
  {
    forall i, j | 0 <= i < |a| && 0 <= j < |b| ensures !a[i].Overlaps(b[j]) {
      assert Within(a[i], low, middle) && Within(b[j], middle, high);
    }
    PackedAppend(a, b, size);
    forall i | 0 <= i < |a + b| ensures Within((a + b)[i], low, high) {
      if i < |a| { assert Within(a[i], low, middle); } else { assert Within(b[i - |a|], middle, high); }
    }
  }

  lemma PayloadIsPacked(offset: nat, length: nat, size: nat)
    requires offset + length <= size
    ensures Packed(PayloadSpans(offset, length), size) && AllWithin(PayloadSpans(offset, length), offset, offset + length)
  {}

  lemma NoPayloadIsPacked(offset: nat, place: nat, size: nat)
    ensures Packed(PayloadSpans(offset, 0), size) && AllWithin(PayloadSpans(offset, 0), place, place)
  {}

  /** Where a placed payload is: nowhere, or right behind the ones before it. */
  lemma PlacedPayload(fileSize: nat, dataOffset: nat, off: nat, next: nat, size: nat)
    requires next == off + fileSize && next <= size && (fileSize != 0 ==> dataOffset == off)
    ensures Packed(PayloadSpans(dataOffset, fileSize), size) && AllWithin(PayloadSpans(dataOffset, fileSize), off, next)
  {
    if fileSize == 0 { NoPayloadIsPacked(dataOffset, off, size); } else { PayloadIsPacked(off, fileSize, size); }
  }

  lemma KernelPayloadPlaced(p: Input, i: nat)
    requires Fits32(Total(p)) && SizesMatch(p) && i < |p.kernel|
    ensures var r := PlacedKernel(p, i);
      && KernelDataOff(p, i + 1) == KernelDataOff(p, i) + r.fileSize && DataStart(p) <= KernelDataOff(p, i)
      && KernelDataOff(p, i + 1) <= Total(p) && (r.fileSize != 0 ==> r.dataOffset == KernelDataOff(p, i))
  {
    KernelDataInside(p, i);
    OffNext(KernelData(p.kernel), i);
    hide Total, DataStart;
  }

  lemma {:induction false} KernelSpansPacked(p: Input, i: nat)
    requires Fits32(Total(p)) && SizesMatch(p) && i <= |p.kernel|
    ensures Packed(KernelSpans(PlacedKernels(p)[..i]), Total(p))
    ensures AllWithin(KernelSpans(PlacedKernels(p)[..i]), DataStart(p), KernelDataOff(p, i))
  {
    hide Total, DataStart, KernelDataOff, PlacedKernel, SizesMatch;
    if i > 0 {
      var all := PlacedKernels(p);
      KernelSpansPacked(p, i - 1);
      KernelPayloadPlaced(p, i - 1);
      assert all[..i][..i - 1] == all[..i - 1];
      hide Packed, AllWithin, PayloadSpans;
      var last, off, next := all[i - 1], KernelDataOff(p, i - 1), KernelDataOff(p, i);
      PlacedPayload(last.fileSize, last.dataOffset, off, next, Total(p));
      PackedAfter(KernelSpans(all[..i - 1]), PayloadSpans(last.dataOffset, last.fileSize), DataStart(p), off, next, Total(p));
    }
  }

  lemma SegmentPayloadPlaced(p: Input, m: nat, j: nat)
    requires Fits32(Total(p)) && SizesMatch(p) && m < |p.modules| && j < |p.modules[m].segments|
    ensures var r := PlacedSegment(p, m, j);
      && SegmentDataOff(p, m, j + 1) == SegmentDataOff(p, m, j) + r.fileSize && ModuleDataOff(p, m) <= SegmentDataOff(p, m, j)
      && SegmentDataOff(p, m, j + 1) <= Total(p) && (r.fileSize != 0 ==> r.dataOffset == SegmentDataOff(p, m, j))
  {
    SegmentDataInside(p, m, j);
    OffNext(SegmentData(p.modules[m].segments), j);
    hide Total, ModuleDataOff;
  }

  lemma {:induction false} SegmentSpansPacked(p: Input, m: nat, j: nat)
    requires Fits32(Total(p)) && SizesMatch(p) && m < |p.modules| && j <= |p.modules[m].segments|
    ensures Packed(SegmentSpans(PlacedSegments(p, m)[..j]), Total(p))
    ensures AllWithin(SegmentSpans(PlacedSegments(p, m)[..j]), ModuleDataOff(p, m), SegmentDataOff(p, m, j))
  {
    hide Total, ModuleDataOff, SegmentDataOff, PlacedSegment, SizesMatch;
    if j > 0 {
      var all := PlacedSegments(p, m);
      SegmentSpansPacked(p, m, j - 1);
      SegmentPayloadPlaced(p, m, j - 1);
      assert all[..j][..j - 1] == all[..j - 1];
      hide Packed, AllWithin, PayloadSpans;
      var last, off, next := all[j - 1], SegmentDataOff(p, m, j - 1), SegmentDataOff(p, m, j);
      PlacedPayload(last.fileSize, last.dataOffset, off, next, Total(p));
      PackedAfter(SegmentSpans(all[..j - 1]), PayloadSpans(last.dataOffset, last.fileSize), ModuleDataOff(p, m), off, next, Total(p));
    }
  }

  /** A span that belongs to module `m`: in its segment table, its name or its payloads. */
  ghost predicate OfModule(p: Input, s: Span, m: nat)
    requires m < |p.modules|
  {
    || Within(s, SegmentTableOff(p, m), SegmentTableOff(p, m + 1))
    || Within(s, NameOff(p, m), NameOff(p, m + 1))
    || Within(s, ModuleDataOff(p, m), ModuleDataOff(p, m + 1))
  }

  lemma ModuleZonesInOrder(p: Input, m: nat, n: nat)
    requires m < n <= |p.modules|
    ensures SegmentTablesStart(p) <= SegmentTableOff(p, m)
    ensures SegmentTableOff(p, m) <= SegmentTableOff(p, m + 1) <= SegmentTableOff(p, n) <= NamesStart(p)
    ensures NamesStart(p) <= NameOff(p, m) <= NameOff(p, m + 1) <= NameOff(p, n) <= NamesEnd(p) <= DataStart(p)
    ensures DataStart(p) <= ModuleDataStart(p) <= ModuleDataOff(p, m) <= ModuleDataOff(p, m + 1) <= ModuleDataOff(p, n) <= Total(p)
  {
    ZonesInOrder(p);
    OffsetsInside(p, m);
    ModuleDataInside(p, m);
    OffMonotone(Segments(p.modules), m + 1, n);
    OffMonotone(Segments(p.modules), n, |p.modules|);
    OffMonotone(Names(p.modules), m + 1, n);
    OffMonotone(Names(p.modules), n, |p.modules|);
    OffMonotone(ModuleData(p.modules), m + 1, n);
    OffMonotone(ModuleData(p.modules), n, |p.modules|);
    hide Off, Segments, Names, ModuleData;
  }

  /** Spans of different modules do not overlap. */
  lemma ModulesApart(p: Input, s: Span, m: nat, t: Span, n: nat)
    requires m < n < |p.modules| && OfModule(p, s, m) && OfModule(p, t, n)
    ensures !s.Overlaps(t)
  {
    ModuleZonesInOrder(p, m, n);
    ModuleZonesInOrder(p, n, n + 1);
    hide SegmentTableOff, NameOff, ModuleDataOff, Total, NamesStart, NamesEnd, DataStart, ModuleDataStart, SegmentTablesStart;
  }

  lemma ModuleTablesPacked(p: Input, m: nat)
    requires Fits32(Total(p)) && m < |p.modules|
    ensures var r := PlacedModule(p, m);
      && NameSpan(r) == Span(NameOff(p, m), NameOff(p, m + 1))
      && TableSpan(r) == Span(SegmentTableOff(p, m), SegmentTableOff(p, m + 1))
      && Packed([NameSpan(r), TableSpan(r)], Total(p))
  {
    hide SegmentTableOff, NameOff, ModuleDataOff, Total, NamesStart, NamesEnd, DataStart, ModuleDataStart, SegmentTablesStart;
    OffsetsInside(p, m);
    ModuleZonesInOrder(p, m, m + 1);
  }

  lemma PayloadsOfModulePacked(p: Input, m: nat)
    requires Fits32(Total(p)) && SizesMatch(p) && m < |p.modules|
    ensures Packed(SegmentSpans(PlacedSegments(p, m)), Total(p))
    ensures AllWithin(SegmentSpans(PlacedSegments(p, m)), ModuleDataOff(p, m), ModuleDataOff(p, m + 1))
  {
    var segments := PlacedSegments(p, m);
    assert segments[..|segments|] == segments;
    SegmentSpansPacked(p, m, |segments|);
    SegmentsEnd(p, m);
  }

  /** The three stretches of one module, put together. */
  lemma ModuleStretches(p: Input, m: nat, name: Span, table: Span, data: seq<Span>)
    requires m < |p.modules| && Packed([name, table], Total(p)) && Packed(data, Total(p))
    requires name == Span(NameOff(p, m), NameOff(p, m + 1))
    requires table == Span(SegmentTableOff(p, m), SegmentTableOff(p, m + 1))
    requires AllWithin(data, ModuleDataOff(p, m), ModuleDataOff(p, m + 1))
    ensures Packed([name, table] + data, Total(p))
    ensures forall i | 0 <= i < |[name, table] + data| :: OfModule(p, ([name, table] + data)[i], m)
  {
    hide SegmentTableOff, NameOff, ModuleDataOff, Total, NamesStart, NamesEnd, DataStart, ModuleDataStart, SegmentTablesStart, Packed;
    ModuleZonesInOrder(p, m, m + 1);
    forall i, j | 0 <= i < 2 && 0 <= j < |data| ensures ![name, table][i].Overlaps(data[j]) {
      assert Within(data[j], ModuleDataOff(p, m), ModuleDataOff(p, m + 1));
    }
    PackedAppend([name, table], data, Total(p));
    forall i | 0 <= i < |[name, table] + data| ensures OfModule(p, ([name, table] + data)[i], m) {
      if i >= 2 { assert Within(data[i - 2], ModuleDataOff(p, m), ModuleDataOff(p, m + 1)); }
    }
  }

  lemma ModuleSpansPacked(p: Input, m: nat)
    requires Fits32(Total(p)) && SizesMatch(p) && m < |p.modules|
    ensures Packed(ModuleSpans(ParsedModules(p)[m]), Total(p))
    ensures forall i | 0 <= i < |ModuleSpans(ParsedModules(p)[m])| :: OfModule(p, ModuleSpans(ParsedModules(p)[m])[i], m)
  {
    hide SegmentTableOff, NameOff, ModuleDataOff, Total, SegmentSpans, PlacedSegments, PlacedModule, NameSpan, TableSpan,
         Packed, AllWithin, OfModule;
    ModuleTablesPacked(p, m);
    PayloadsOfModulePacked(p, m);
    var r := PlacedModule(p, m);
    ModuleStretches(p, m, NameSpan(r), TableSpan(r), SegmentSpans(PlacedSegments(p, m)));
  }

  lemma SegmentsEnd(p: Input, m: nat)
    requires m < |p.modules|
    ensures SegmentDataOff(p, m, |p.modules[m].segments|) == ModuleDataOff(p, m + 1)
  {
    OffEnds(SegmentData(p.modules[m].segments));
    ModuleDataInside(p, m);
  }

  /** A span of one of the first `n` modules. */
  ghost predicate OfModules(p: Input, s: Span, n: nat)
    requires n <= |p.modules|
  {
    exists m | 0 <= m < n :: OfModule(p, s, m)
  }

  /** One more module's spans. */
  lemma OneMoreModule(p: Input, n: nat, front: seq<Span>, last: seq<Span>)
    requires n < |p.modules| && Packed(front, Total(p)) && Packed(last, Total(p))
    requires forall i | 0 <= i < |front| :: OfModules(p, front[i], n)
    requires forall j | 0 <= j < |last| :: OfModule(p, last[j], n)
    ensures Packed(front + last, Total(p))
    ensures forall i | 0 <= i < |front + last| :: OfModules(p, (front + last)[i], n + 1)
  {
    hide OfModule, Total, Packed;
    forall i, j | 0 <= i < |front| && 0 <= j < |last| ensures !front[i].Overlaps(last[j]) {
      assert OfModules(p, front[i], n) && OfModule(p, last[j], n);
      var m :| 0 <= m < n && OfModule(p, front[i], m);
      ModulesApart(p, front[i], m, last[j], n);
    }
    PackedAppend(front, last, Total(p));
    forall i | 0 <= i < |front + last| ensures OfModules(p, (front + last)[i], n + 1) {
      if i < |front| { assert OfModules(p, front[i], n); }
      else { assert OfModule(p, last[i - |front|], n); }
    }
  }

  lemma {:induction false} ModulesSpansPacked(p: Input, n: nat)
    requires Fits32(Total(p)) && SizesMatch(p) && n <= |p.modules|
    ensures Packed(ModulesSpans(ParsedModules(p)[..n]), Total(p))
    ensures forall i | 0 <= i < |ModulesSpans(ParsedModules(p)[..n])| :: OfModules(p, ModulesSpans(ParsedModules(p)[..n])[i], n)
  {
    hide ModuleSpans, OfModules, OfModule, Total, Packed, PlacedModule, PlacedSegments;
    if n == 0 {
      NoSpansPacked(Total(p));
    } else {
      var all := ParsedModules(p);
      ModulesSpansPacked(p, n - 1);
      ModuleSpansPacked(p, n - 1);
      assert all[..n][..n - 1] == all[..n - 1];
      OneMoreModule(p, n - 1, ModulesSpans(all[..n - 1]), ModuleSpans(all[n - 1]));
    }
  }

  lemma NoSpansPacked(size: nat)
    ensures Packed([], size)
  {}

  /** Header, tables and kernel payloads are clear of every module span. */
  lemma ClearOfModules(p: Input, s: Span, t: Span)
    requires Within(s, 0, SegmentTablesStart(p)) || Within(s, DataStart(p), ModuleDataStart(p))
    requires OfModules(p, t, |p.modules|)
    ensures !s.Overlaps(t)
  {
    var m :| 0 <= m < |p.modules| && OfModule(p, t, m);
    ModuleZonesInOrder(p, m, m + 1);
    hide SegmentTableOff, NameOff, ModuleDataOff, Total, NamesStart, NamesEnd, DataStart, ModuleDataStart, SegmentTablesStart;
  }

  lemma TableSpansPacked(p: Input)
    requires Fits32(Total(p))
    ensures Packed(TableSpans(HeaderOf(p)), Total(p)) && AllWithin(TableSpans(HeaderOf(p)), 0, SegmentTablesStart(p))
  {
    ZonesInOrder(p);
    hide NamesStart, NamesEnd, DataStart, ModuleDataStart, Total;
  }

  /** The occupied ranges of a packed image fit and do not overlap. */
  lemma SpansArePacked(p: Input)
    requires Fits32(Total(p)) && SizesMatch(p)
    ensures Packed(AllSpans(Expected(p)), Total(p))
  {
    hide Total, TableSpans, KernelSpans, ModulesSpans, Packed, NamesStart, NamesEnd, DataStart, ModuleDataStart, SegmentTablesStart,
         OfModules, KernelDataOff, PlacedKernel, PlacedModule, PlacedSegments, Pack, HeaderOf, SizesMatch;
    var tables, kernels, modules := TableSpans(HeaderOf(p)), KernelSpans(PlacedKernels(p)), ModulesSpans(ParsedModules(p));
    assert PlacedKernels(p)[..|p.kernel|] == PlacedKernels(p) && ParsedModules(p)[..|p.modules|] == ParsedModules(p);
    TableSpansPacked(p);
    KernelSpansPacked(p, |p.kernel|);
    ModulesSpansPacked(p, |p.modules|);
    ZonesInOrder(p);
    CursorEnds(p);
    var size := Total(p);
    assert AllSpans(Expected(p)) == (tables + kernels) + modules;
    forall i, j | 0 <= i < |tables| && 0 <= j < |kernels| ensures !tables[i].Overlaps(kernels[j]) {
      assert Within(tables[i], 0, SegmentTablesStart(p)) && Within(kernels[j], DataStart(p), ModuleDataStart(p));
    }
    PackedAppend(tables, kernels, size);
    forall i, j | 0 <= i < |tables + kernels| && 0 <= j < |modules| ensures !(tables + kernels)[i].Overlaps(modules[j]) {
      if i < |tables| { assert Within(tables[i], 0, SegmentTablesStart(p)); }
      else { assert Within(kernels[i - |tables|], DataStart(p), ModuleDataStart(p)); }
      ClearOfModules(p, (tables + kernels)[i], modules[j]);
    }
    PackedAppend(tables + kernels, modules, size);
  }

  // ---- The round trip ----

  lemma PlacedKernelsValid(p: Input)
    requires Fits32(Total(p))
    ensures ValidKernelRecords(KernelInputs(p), p.entry) <==> ValidKernelRecords(PlacedKernels(p), p.entry)
  {
    var a, b := KernelInputs(p), PlacedKernels(p);
    hide Total, KernelDataOff, ValidKernelRecords;
    assert forall i | 0 <= i < |a| :: SameKernel(a[i], b[i]) && SameKernel(b[i], a[i]);
    if ValidKernelRecords(a, p.entry) { KernelValidityIgnoresOffsets(a, b, p.entry); }
    if ValidKernelRecords(b, p.entry) { KernelValidityIgnoresOffsets(b, a, p.entry); }
  }

  lemma ModuleTableDecodes(p: Input)
    requires Good(p)
    ensures ModuleTable(Pack(p), ModuleTableStart(p), ParsedModules(p))
  {
    hide Pack, Total, IsModule, Record, PlacedModule, PlacedSegments, GoodModule, ValidKernelRecords;
    ZonesInOrder(p);
    ZoneOffset(p, 0);
    forall m | 0 <= m < |p.modules|
      ensures ModuleTableStart(p) + (m + 1) * RECORD_SIZE <= |Pack(p)|
      ensures IsModule(Pack(p), Record(Pack(p), ModuleTableStart(p), m), ParsedModules(p)[m])
    {
      ModuleDecodes(p, m);
    }
  }

  /** Good inputs pack to an image: the one with their records, names and entries. */
  lemma PackedInputsAreAnImage(p: Input)
    requires Good(p) && SizesMatch(p)
    ensures IsImage(Pack(p), Expected(p))
  {
    HeaderDecodes(p);
    KernelTableDecodes(p);
    SpansArePacked(p);
    PlacedKernelsValid(p);
    ModuleTableDecodes(p);
    hide Pack, Total, ModuleTable, KernelTable, Packed, AllSpans, ValidKernelRecords, PlacedKernel, PlacedModule, PlacedSegments, DecodeHeader;
  }

  /** Every payload is found in the packed image at the offset its record carries. */
  lemma PayloadsAreFound(p: Input)
    requires Fits32(Total(p)) && SizesMatch(p)
    ensures forall i | 0 <= i < |p.kernel| && p.kernel[i].data != [] ::
              At(Pack(p), PlacedKernel(p, i).dataOffset, p.kernel[i].data)
    ensures forall m, j | 0 <= m < |p.modules| && 0 <= j < |p.modules[m].segments| && p.modules[m].segments[j].data != [] ::
              At(Pack(p), PlacedSegment(p, m, j).dataOffset, p.modules[m].segments[j].data)
  {
    hide Total, Pack, At;
    forall i | 0 <= i < |p.kernel| && p.kernel[i].data != []
      ensures At(Pack(p), PlacedKernel(p, i).dataOffset, p.kernel[i].data)
    {
      KernelDataAt(p, i);
    }
    forall m, j | 0 <= m < |p.modules| && 0 <= j < |p.modules[m].segments| && p.modules[m].segments[j].data != []
      ensures At(Pack(p), PlacedSegment(p, m, j).dataOffset, p.modules[m].segments[j].data)
    {
      SegmentDataAt(p, m, j);
    }
  }

  /** Whatever module the parser finds at a packed record is the one that was packed. */
  lemma FoundModuleIsPacked(p: Input, m: nat, found: ImageModule)
    requires Fits32(Total(p)) && m < |p.modules|
    requires forall j | 0 <= j < |p.modules[m].segments| :: p.modules[m].segments[j].record.Valid()
    requires ModuleTableStart(p) + (m + 1) * RECORD_SIZE <= |Pack(p)|
    requires IsModule(Pack(p), Record(Pack(p), ModuleTableStart(p), m), found)
    ensures found == ParsedModules(p)[m] && GoodModule(p.modules[m])
  {
    hide Pack, Total, Record, SegmentTableOff, NameOff, SegmentTable, DecodeModuleRecord, ValidModuleRecords, ValidUtf8,
         SegmentDataOff, ModuleSegment.Valid;
    ModuleRecordDecodes(p, m);
    ModuleNameIsFound(p, m);
    SegmentTableDecodes(p, m);
    var placed := PlacedSegments(p, m);
    assert found.record == PlacedModule(p, m);
    assert |found.segments| == |placed|;
    SameSegments(Pack(p), SegmentTableOff(p, m), found.segments, placed);
    ModuleValidityIgnoresOffsets(placed, SegmentInputs(p.modules[m]), p.modules[m].entry);
  }

  ghost predicate AllRecordsValid(p: Input) {
    && (forall i | 0 <= i < |p.kernel| :: p.kernel[i].record.Valid())
    && forall m, j | 0 <= m < |p.modules| && 0 <= j < |p.modules[m].segments| :: p.modules[m].segments[j].record.Valid()
  }

  /** Encoding refuses no record. */
  ghost predicate Encodable(p: Input) { HeaderFits(p) && AllRecordsValid(p) }

  /** The header of `p` passes its own validation. */
  predicate HeaderFits(p: Input) { Total(p) <= SYSTEM_ROM_SIZE && DirectMapPhysical(p.entry).Some? }

  lemma HeaderFitsIsValid(p: Input)
    requires Fits32(Total(p))
    ensures HeaderOf(p).Valid() <==> HeaderFits(p)
  {
    ZonesInOrder(p);
  }

  lemma FoundModulesArePacked(p: Input, found: seq<ImageModule>)
    requires Fits32(Total(p)) && Encodable(p)
    requires |found| == |p.modules| && ModuleTable(Pack(p), ModuleTableStart(p), found)
    ensures found == ParsedModules(p) && NamesDistinct(p.modules)
    ensures forall m | 0 <= m < |p.modules| :: GoodModule(p.modules[m])
  {
    hide Pack, Total, IsModule, GoodModule, Record, PlacedModule, PlacedSegments;
    forall m | 0 <= m < |p.modules| ensures found[m] == ParsedModules(p)[m] && GoodModule(p.modules[m]) {
      FoundModuleIsPacked(p, m, found[m]);
    }
    forall i, j | 0 <= i < j < |p.modules| ensures p.modules[i].name != p.modules[j].name {
      assert found[i].name != found[j].name;
    }
  }

  lemma FoundHeaderIsPacked(p: Input, h: ImageHeader)
    requires Fits32(Total(p)) && HeaderFits(p) && DecodeHeader(Pack(p)) == Some(h)
    ensures h == HeaderOf(p)
  {
    HeaderFitsIsValid(p);
    HeaderAt(p);
    ZonesInOrder(p);
    ZoneOffset(p, 0);
    hide Pack, Total, Serialize, DecodeHeader;
    HeaderCodec(Pack(p), HeaderOf(p));
  }

  /** Conversely, only good inputs pack to an image, and only to the expected one. */
  lemma OnlyGoodInputsPack(p: Input, img: SystemImage)
    requires Fits32(Total(p)) && Encodable(p) && IsImage(Pack(p), img)
    ensures Good(p) && img == Expected(p)
  {
    hide Pack, Total, KernelTable, ModuleTable, AllSpans, Packed, ValidKernelRecords, PlacedKernel, GoodModule, Serialize,
         ParsedModules, DecodeHeader;
    FoundHeaderIsPacked(p, img.header);
    KernelTableDecodes(p);
    PlacedKernelsValid(p);
    SameKernels(Pack(p), HEADER_SIZE, img.kernelSegments, PlacedKernels(p));
    FoundModulesArePacked(p, img.modules);
  }
}
