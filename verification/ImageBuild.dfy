/** `build_image` as it runs: cursor loops that place everything, then a zeroed buffer
    filled in place (crates/minemu-image/src/format.rs). */
module ImageBuild {
  import opened Platform
  import opened Bytes
  import opened Records
  import opened Validation
  import opened ImageFormat
  import opened Layout
  import opened ImagePack
  import opened ImageRoundTrip

  // ---- The cursor loops ----

  /** Records are a multiple of four bytes, so the tables need no padding. */
  lemma TablesAreAligned(p: Input, m: nat)
    requires m <= |p.modules|
    ensures Align4(SegmentTableOff(p, m)) == SegmentTableOff(p, m)
  {
    hide Off;
  }

  /** The segment-table loop; `None` when an offset does not fit 32 bits. */
  method PlaceSegmentTables(p: Input) returns (offsets: Option<seq<u32>>, cursor: nat)
    ensures offsets.None? ==> !Fits32(Total(p))
    ensures offsets.Some? ==> cursor == NamesStart(p) && |offsets.value| == |p.modules|
    ensures offsets.Some? ==> forall m | 0 <= m < |p.modules| :: offsets.value[m] == SegmentTableOff(p, m)
  {
    hide Total, NameOff, ModuleDataOff, NamesEnd, NamesStart, DataStart, SegmentTableOff, Align4, SegmentTablesStart;
    TablesAreAligned(p, |p.modules|);
    CursorEnds(p);
    ZonesInOrder(p);
    var found: seq<u32> := [];
    cursor := SegmentTablesStart(p);
    for m := 0 to |p.modules|
      invariant cursor == SegmentTableOff(p, m) && |found| == m
      invariant forall i | 0 <= i < m :: found[i] == SegmentTableOff(p, i)
    {
      OffsetsInside(p, m);
      TablesAreAligned(p, m);
      cursor := Align4(cursor);
      if !Fits32(cursor) { return None, cursor; }
      found := found + [cursor];
      cursor := cursor + |p.modules[m].segments| * RECORD_SIZE;
    }
    return Some(found), Align4(cursor);
  }

  /** The name loop. */
  method PlaceNames(p: Input, start: nat) returns (offsets: Option<seq<u32>>, cursor: nat)
    requires start == NamesStart(p)
    ensures offsets.None? ==> !Fits32(Total(p))
    ensures offsets.Some? ==> cursor == DataStart(p) && |offsets.value| == |p.modules|
    ensures offsets.Some? ==> forall m | 0 <= m < |p.modules| :: offsets.value[m] == NameOff(p, m)
  {
    hide Total, NameOff, NamesStart, NamesEnd, SegmentTableOff, ModuleDataOff, SegmentTablesStart, Align4;
    ZonesInOrder(p);
    CursorEnds(p);
    var found: seq<u32> := [];
    cursor := start;
    for m := 0 to |p.modules|
      invariant cursor == NameOff(p, m) && |found| == m
      invariant forall i | 0 <= i < m :: found[i] == NameOff(p, i)
    {
      OffsetsInside(p, m);
      if !Fits32(cursor) { return None, cursor; }
      found := found + [cursor];
      cursor := cursor + |p.modules[m].name|;
    }
    return Some(found), Align4(cursor);
  }

  /** What a payload loop leaves in a record. */
  ghost predicate IsPlacedKernel(p: Input, i: nat, r: KernelSegment)
    requires i < |p.kernel|
  {
    if p.kernel[i].data == [] then r == p.kernel[i].record
    else Fits32(KernelDataOff(p, i)) && r == p.kernel[i].record.(dataOffset := KernelDataOff(p, i))
  }

  method PlaceKernelData(p: Input, start: nat) returns (records: Option<seq<KernelSegment>>, cursor: nat)
    requires start == DataStart(p)
    ensures records.None? ==> !Fits32(Total(p))
    ensures records.Some? ==> cursor == ModuleDataStart(p) && |records.value| == |p.kernel|
    ensures records.Some? ==> forall i | 0 <= i < |p.kernel| :: IsPlacedKernel(p, i, records.value[i])
  {
    hide Total, KernelDataOff, DataStart, ModuleDataStart, ModuleDataOff, NameOff, SegmentTableOff, NamesStart, NamesEnd;
    CursorEnds(p);
    var placed: seq<KernelSegment> := [];
    cursor := start;
    for i := 0 to |p.kernel|
      invariant cursor == KernelDataOff(p, i) && |placed| == i
      invariant forall k | 0 <= k < i :: IsPlacedKernel(p, k, placed[k])
    {
      KernelStep(p, i);
      var record, data := p.kernel[i].record, p.kernel[i].data;
      if data != [] {
        if !Fits32(cursor) { return None, cursor; }
        record := record.(dataOffset := cursor);
        cursor := cursor + |data|;
      }
      placed := placed + [record];
    }
    return Some(placed), cursor;
  }

  ghost predicate IsPlacedSegment(p: Input, m: nat, j: nat, r: ModuleSegment)
    requires m < |p.modules| && j < |p.modules[m].segments|
  {
    var s := p.modules[m].segments[j];
    if s.data == [] then r == s.record
    else Fits32(SegmentDataOff(p, m, j)) && r == s.record.(dataOffset := SegmentDataOff(p, m, j))
  }

  ghost predicate IsPlacedTable(p: Input, m: nat, records: seq<ModuleSegment>)
    requires m < |p.modules|
  {
    |records| == |p.modules[m].segments| && forall j | 0 <= j < |records| :: IsPlacedSegment(p, m, j, records[j])
  }

  method PlaceModule(p: Input, m: nat, start: nat) returns (records: Option<seq<ModuleSegment>>, cursor: nat)
    requires m < |p.modules| && start == ModuleDataOff(p, m)
    ensures records.None? ==> !Fits32(Total(p))
    ensures records.Some? ==> cursor == ModuleDataOff(p, m + 1) && IsPlacedTable(p, m, records.value)
  {
    hide Total, SegmentDataOff, ModuleDataOff, SegmentTableOff;
    SegmentMarks(p, m);
    var segments := p.modules[m].segments;
    var placed := [];
    cursor := start;
    for j := 0 to |segments|
      invariant cursor == SegmentDataOff(p, m, j) && |placed| == j
      invariant forall k | 0 <= k < j :: IsPlacedSegment(p, m, k, placed[k])
    {
      SegmentStep(p, m, j);
      var record, data := segments[j].record, segments[j].data;
      if data != [] {
        if !Fits32(cursor) { return None, cursor; }
        record := record.(dataOffset := cursor);
        cursor := cursor + |data|;
      }
      placed := placed + [record];
    }
    return Some(placed), cursor;
  }

  method PlaceModules(p: Input, start: nat) returns (records: Option<seq<seq<ModuleSegment>>>, cursor: nat)
    requires start == ModuleDataStart(p)
    ensures records.None? ==> !Fits32(Total(p))
    ensures records.Some? ==> cursor == Total(p) && |records.value| == |p.modules|
    ensures records.Some? ==> forall m | 0 <= m < |p.modules| :: IsPlacedTable(p, m, records.value[m])
  {
    hide Total, ModuleDataOff, ModuleDataStart, KernelDataOff, NameOff, SegmentTableOff, DataStart, NamesStart, NamesEnd;
    CursorEnds(p);
    var placed := [];
    cursor := start;
    for m := 0 to |p.modules|
      invariant cursor == ModuleDataOff(p, m) && |placed| == m
      invariant forall k | 0 <= k < m :: IsPlacedTable(p, k, placed[k])
    {
      var table;
      table, cursor := PlaceModule(p, m, cursor);
      if table.None? { return None, cursor; }
      placed := placed + [table.value];
    }
    return Some(placed), cursor;
  }

  // ---- Filling the buffer ----

  method CopyAt(buffer: array<u8>, offset: nat, data: seq<u8>)
    requires offset + |data| <= buffer.Length
    modifies buffer
    ensures buffer[..] == Splice(old(buffer[..]), offset, data)
  {
    for i := 0 to |data|
      invariant forall k | 0 <= k < buffer.Length ::
          buffer[k] == if offset <= k < offset + i then data[k - offset] else old(buffer[k])
    {
      buffer[offset + i] := data[i];
    }
    assert buffer[..] == Splice(old(buffer[..]), offset, data);
  }

  function ZoneStarts(p: Input): (starts: seq<nat>)
    ensures |starts| == 8
  {
    Starts(p)[..8]
  }

  /** How far each zone has been written; the padding never is. */
  datatype Marks = Marks(
    header: nat, kernelTable: nat, moduleTable: nat, segmentTables: nat, names: nat, padding: nat,
    kernelData: nat, moduleData: nat)
  {
    function Of(k: nat): nat {
      if k == 0 then header else if k == 1 then kernelTable else if k == 2 then moduleTable
      else if k == 3 then segmentTables else if k == 4 then names else if k == 5 then padding
      else if k == 6 then kernelData else moduleData
    }

    function Set(k: nat, mark: nat): Marks {
      if k == 0 then this.(header := mark) else if k == 1 then this.(kernelTable := mark)
      else if k == 2 then this.(moduleTable := mark) else if k == 3 then this.(segmentTables := mark)
      else if k == 4 then this.(names := mark) else if k == 5 then this.(padding := mark)
      else if k == 6 then this.(kernelData := mark) else this.(moduleData := mark)
    }

    function List(): seq<nat> { seq(8, k requires 0 <= k < 8 => Of(k)) }
  }

  lemma SetInList(marks: Marks, k: nat, mark: nat)
    requires k < 8
    ensures marks.Set(k, mark).List() == marks.List()[k := mark]
  {}

  /** The buffer shows the image up to the fill marks, and zero elsewhere. */
  ghost predicate Progress(p: Input, buffer: array<u8>, marks: Marks)
    reads buffer
    requires Fits32(Total(p))
  {
    Shows(buffer[..], Pack(p), ZoneStarts(p), marks.List())
  }

  lemma MarkFacts(p: Input, marks: Marks, k: nat)
    requires k < 8
    ensures |marks.List()| == 8 && marks.List()[k] == marks.Of(k) && ZoneStarts(p)[k] == Start(p, k)
  {
    hide Start, Marks.Of;
  }

  /** Writes one fragment of the image at the fill mark of its zone. */
  method Fill(p: Input, buffer: array<u8>, ghost marks: Marks, ghost k: nat, offset: nat, data: seq<u8>)
    returns (ghost next: Marks)
    requires Fits32(Total(p)) && Progress(p, buffer, marks) && k < 8
    requires marks.Of(k) == offset && Start(p, k) <= offset && At(Pack(p), offset, data)
    modifies buffer
    ensures next == marks.Set(k, offset + |data|) && Progress(p, buffer, next)
  {
    hide Marks.Of, Marks.Set, Marks.List, Start, ZoneStarts, Pack, Total, Splice, Shows, At;
    MarkFacts(p, marks, k);
    SetInList(marks, k, offset + |data|);
    next := marks.Set(k, offset + |data|);
    FillMore(buffer[..], Pack(p), ZoneStarts(p), marks.List(), k, data);
    CopyAt(buffer, offset, data);
  }

  /** With every zone but the padding filled, the buffer is the image. */
  lemma FilledIsPacked(p: Input, buffer: seq<u8>, marks: seq<nat>)
    requires Fits32(Total(p)) && |marks| == 8 && Shows(buffer, Pack(p), ZoneStarts(p), marks)
    requires forall k | 0 <= k < 8 && k != 5 :: marks[k] == Start(p, k + 1)
    ensures buffer == Pack(p)
  {
    ZonesInOrder(p);
    ZoneOffset(p, 0);
    forall x | 0 <= x < |buffer| ensures buffer[x] == Pack(p)[x] {
      hide Total, Pack, ModuleTableStart, SegmentTablesStart, NamesStart, NamesEnd, DataStart, ModuleDataStart;
      if NamesEnd(p) <= x < DataStart(p) {
        PaddingIsZero(p, x);
      } else {
        var k := if x < Start(p, 1) then 0 else if x < Start(p, 2) then 1 else if x < Start(p, 3) then 2
          else if x < Start(p, 4) then 3 else if x < Start(p, 5) then 4 else if x < Start(p, 7) then 6 else 7;
        assert ZoneStarts(p)[k] <= x < marks[k];
      }
    }
  }

  /** The kernel write loop: record and payload of each segment. */
  method FillKernel(p: Input, buffer: array<u8>, ghost marks: Marks, records: seq<KernelSegment>)
    returns (ok: bool, ghost next: Marks)
    requires Fits32(Total(p)) && Progress(p, buffer, marks) && records == PlacedKernels(p)
    requires marks.kernelTable == HEADER_SIZE && marks.kernelData == DataStart(p)
    modifies buffer
    ensures ok <==> forall i | 0 <= i < |p.kernel| :: p.kernel[i].record.Valid()
    ensures ok ==> next == marks.(kernelTable := ModuleTableStart(p), kernelData := ModuleDataStart(p)) && Progress(p, buffer, next)
  {
    hide Progress, Total, Pack, At, Holds, Serialize, DataStart, ModuleDataStart, KernelDataOff, KernelSegment.Valid,
         ModuleDataOff, NameOff, SegmentTableOff, NamesStart, NamesEnd;
    CursorEnds(p);
    next := marks;
    for i := 0 to |records|
      invariant Progress(p, buffer, next)
      invariant next == marks.(kernelTable := HEADER_SIZE + RECORD_SIZE * i, kernelData := KernelDataOff(p, i))
      invariant forall k | 0 <= k < i :: p.kernel[k].record.Valid()
    {
      KernelStep(p, i);
      KernelDataAt(p, i);
      KernelRecordAt(p, i);
      PlacedKernelValid(p, i);
      var record := EncodeKernelSegment(records[i]);
      if record.None? { return false, next; }
      HoldsWords(record.value, records[i].Words());
      next := Fill(p, buffer, next, 1, HEADER_SIZE + RECORD_SIZE * i, record.value[..]);
      var data := p.kernel[i].data;
      if data != [] {
        next := Fill(p, buffer, next, 6, records[i].dataOffset, data);
      }
    }
    return true, next;
  }

  lemma HoldsWords(a: array<u8>, words: seq<u32>)
    requires Holds(a, words)
    ensures a[..] == Serialize(words) && |a[..]| == 4 * |words|
  {}

  lemma PlacedKernelValid(p: Input, i: nat)
    requires Fits32(Total(p)) && i < |p.kernel|
    ensures PlacedKernel(p, i).Valid() <==> p.kernel[i].record.Valid()
  {
    hide Total, KernelDataOff;
  }

  lemma PlacedSegmentValid(p: Input, m: nat, j: nat)
    requires Fits32(Total(p)) && m < |p.modules| && j < |p.modules[m].segments|
    ensures PlacedSegment(p, m, j).Valid() <==> p.modules[m].segments[j].record.Valid()
  {
    hide Total, SegmentDataOff;
  }

  /** One module segment: its record, then its payload. */
  method FillSegment(p: Input, m: nat, j: nat, buffer: array<u8>, ghost marks: Marks, table: nat, record: ModuleSegment)
    returns (ok: bool, ghost next: Marks)
    requires Fits32(Total(p)) && m < |p.modules| && j < |p.modules[m].segments| && Progress(p, buffer, marks)
    requires record == PlacedSegment(p, m, j) && table == SegmentTableOff(p, m)
    requires marks.segmentTables == table + RECORD_SIZE * j && marks.moduleData == SegmentDataOff(p, m, j)
    modifies buffer
    ensures ok <==> p.modules[m].segments[j].record.Valid()
    ensures ok ==> Progress(p, buffer, next)
    ensures ok ==> next == marks.(segmentTables := table + RECORD_SIZE * (j + 1), moduleData := SegmentDataOff(p, m, j + 1))
  {
    hide Progress, Total, Pack, At, Holds, Serialize, SegmentTableOff, NameOff, ModuleDataOff, SegmentDataOff, NamesStart, NamesEnd,
         DataStart, ModuleDataStart, SegmentTablesStart, ModuleSegment.Valid;
    OffsetsInside(p, m);
    ModuleDataInside(p, m);
    SegmentStep(p, m, j);
    SegmentDataAt(p, m, j);
    SegmentRecordAt(p, m, j);
    PlacedSegmentValid(p, m, j);
    var encoded := EncodeModuleSegment(record);
    if encoded.None? { return false, marks; }
    HoldsWords(encoded.value, record.Words());
    next := Fill(p, buffer, marks, 3, table + RECORD_SIZE * j, encoded.value[..]);
    var data := p.modules[m].segments[j].data;
    if data != [] { next := Fill(p, buffer, next, 7, record.dataOffset, data); }
    return true, next;
  }

  /** The marks that the segment loop of module `m` starts and ends with. */
  lemma SegmentMarks(p: Input, m: nat)
    requires m < |p.modules|
    ensures SegmentDataOff(p, m, 0) == ModuleDataOff(p, m)
    ensures SegmentDataOff(p, m, |p.modules[m].segments|) == ModuleDataOff(p, m + 1)
    ensures SegmentTableOff(p, m + 1) == SegmentTableOff(p, m) + RECORD_SIZE * |p.modules[m].segments|
  {
    hide Total;
    SegmentsEnd(p, m);
    OffEnds(SegmentData(p.modules[m].segments));
    OffsetsInside(p, m);
    hide NamesEnd, DataStart, ModuleDataStart, SegmentTablesStart;
  }

  /** The loop over one module's segments. */
  method FillSegments(p: Input, m: nat, buffer: array<u8>, ghost marks: Marks, table: nat, records: seq<ModuleSegment>)
    returns (ok: bool, ghost next: Marks)
    requires Fits32(Total(p)) && m < |p.modules| && Progress(p, buffer, marks)
    requires records == PlacedSegments(p, m) && table == SegmentTableOff(p, m)
    requires marks.segmentTables == table && marks.moduleData == ModuleDataOff(p, m)
    modifies buffer
    ensures ok <==> forall j | 0 <= j < |p.modules[m].segments| :: p.modules[m].segments[j].record.Valid()
    ensures ok ==> next == marks.(segmentTables := SegmentTableOff(p, m + 1), moduleData := ModuleDataOff(p, m + 1))
    ensures ok ==> Progress(p, buffer, next)
  {
    hide Total, Progress, SegmentTableOff, NameOff, ModuleDataOff, SegmentDataOff, PlacedSegment, ModuleSegment.Valid;
    SegmentMarks(p, m);
    next := marks;
    for j := 0 to |records|
      invariant Progress(p, buffer, next)
      invariant next == marks.(segmentTables := table + RECORD_SIZE * j, moduleData := SegmentDataOff(p, m, j))
      invariant forall k | 0 <= k < j :: p.modules[m].segments[k].record.Valid()
    {
      ok, next := FillSegment(p, m, j, buffer, next, table, records[j]);
      if !ok { return; }
    }
    ok := true;
  }

  /** The fill marks when the first `m` modules are written. */
  ghost function MarksAt(p: Input, m: nat): Marks
    requires m <= |p.modules|
  {
    Marks(HEADER_SIZE, ModuleTableStart(p), ModuleTableStart(p) + RECORD_SIZE * m, SegmentTableOff(p, m), NameOff(p, m),
          NamesEnd(p), ModuleDataStart(p), ModuleDataOff(p, m))
  }

  /** Before the first write, every mark is at the start of its zone. */
  ghost function MarksAtStart(p: Input): Marks {
    Marks(0, HEADER_SIZE, ModuleTableStart(p), SegmentTablesStart(p), NamesStart(p), NamesEnd(p), DataStart(p), ModuleDataStart(p))
  }

  /** One pass of the module write loop: record, name, then its segments. */
  method FillModule(p: Input, m: nat, buffer: array<u8>, name: u32, table: u32, records: seq<ModuleSegment>)
    returns (ok: bool)
    requires Fits32(Total(p)) && m < |p.modules| && Progress(p, buffer, MarksAt(p, m))
    requires name == NameOff(p, m) && table == SegmentTableOff(p, m) && records == PlacedSegments(p, m)
    modifies buffer
    ensures ok <==> forall j | 0 <= j < |p.modules[m].segments| :: p.modules[m].segments[j].record.Valid()
    ensures ok ==> Progress(p, buffer, MarksAt(p, m + 1))
  {
    hide Total, Pack, At, Progress, Holds, Serialize, NamesEnd, DataStart, ModuleDataStart, SegmentTablesStart;
    OffsetsInside(p, m);
    ModuleRecordAt(p, m);
    NameAt(p, m);
    ModuleZonesInOrder(p, m, m + 1);
    ghost var marks := MarksAt(p, m);
    hide Progress, Total, Pack, At, Holds, Serialize, SegmentTableOff, NameOff, ModuleDataOff, NamesStart, NamesEnd, DataStart,
         ModuleDataStart, SegmentTablesStart;
    var input := p.modules[m];
    var r := ModuleRecord(name, |input.name|, table, |input.segments|, input.entry);
    var record := EncodeModuleRecord(r);
    HoldsWords(record, r.Words());
    marks := Fill(p, buffer, marks, 2, ModuleTableStart(p) + RECORD_SIZE * m, record[..]);
    if input.name != [] { marks := Fill(p, buffer, marks, 4, name, input.name); }
    ok, marks := FillSegments(p, m, buffer, marks, table, records);
    if ok { assert marks == MarksAt(p, m + 1); }
  }

  ghost predicate ModuleRecordsValid(m: ModuleInput) {
    forall j | 0 <= j < |m.segments| :: m.segments[j].record.Valid()
  }

  /** The module write loop. */
  method FillModules(p: Input, buffer: array<u8>, tables: seq<u32>, names: seq<u32>, segments: seq<seq<ModuleSegment>>)
    returns (ok: bool)
    requires Fits32(Total(p)) && Progress(p, buffer, MarksAt(p, 0)) && |tables| == |names| == |segments| == |p.modules|
    requires forall m | 0 <= m < |p.modules| ::
        tables[m] == SegmentTableOff(p, m) && names[m] == NameOff(p, m) && segments[m] == PlacedSegments(p, m)
    modifies buffer
    ensures ok <==> forall m | 0 <= m < |p.modules| :: ModuleRecordsValid(p.modules[m])
    ensures ok ==> Progress(p, buffer, MarksAt(p, |p.modules|))
  {
    hide Progress, Total, Pack, SegmentTableOff, NameOff, PlacedSegments, MarksAt, ModuleSegment.Valid;
    for m := 0 to |p.modules|
      invariant Progress(p, buffer, MarksAt(p, m))
      invariant forall n | 0 <= n < m :: ModuleRecordsValid(p.modules[n])
    {
      ok := FillModule(p, m, buffer, names[m], tables[m], segments[m]);
      assert ok <==> ModuleRecordsValid(p.modules[m]);
      if !ok { return; }
    }
    ok := true;
  }

  lemma AllRecordsByModule(p: Input)
    ensures AllRecordsValid(p) <==>
      && (forall i | 0 <= i < |p.kernel| :: p.kernel[i].record.Valid())
      && forall m | 0 <= m < |p.modules| :: ModuleRecordsValid(p.modules[m])
  {
    hide KernelSegment.Valid, ModuleSegment.Valid;
  }

  /** All the writes, in the source's order; it fails only on a record that does not encode. */
  method FillAll(p: Input, buffer: array<u8>, header: array<u8>, kernels: seq<KernelSegment>, tables: seq<u32>,
                 names: seq<u32>, segments: seq<seq<ModuleSegment>>) returns (ok: bool)
    requires Fits32(Total(p)) && buffer.Length == Total(p) && forall x | 0 <= x < buffer.Length :: buffer[x] == 0
    requires Holds(header, HeaderOf(p).Words()) && kernels == PlacedKernels(p)
    requires |tables| == |names| == |segments| == |p.modules|
    requires forall m | 0 <= m < |p.modules| ::
        tables[m] == SegmentTableOff(p, m) && names[m] == NameOff(p, m) && segments[m] == PlacedSegments(p, m)
    modifies buffer
    ensures ok <==> AllRecordsValid(p)
    ensures ok ==> buffer[..] == Pack(p)
  {
    hide Progress, Total, Pack, At, Holds, Serialize, SegmentTableOff, NameOff, ModuleDataOff, NamesStart, NamesEnd, DataStart,
         ModuleDataStart, SegmentTablesStart, PlacedSegments, PlacedKernels, ModuleTableStart, HeaderOf, MarksAt,
         AllRecordsValid, ModuleRecordsValid, KernelSegment.Valid;
    AllRecordsByModule(p);
    NothingWritten(p, buffer);
    HeaderAt(p);
    HoldsWords(header, HeaderOf(p).Words());
    MarksAfterKernel(p);
    ghost var marks := Fill(p, buffer, MarksAtStart(p), 0, 0, header[..]);
    ok, marks := FillKernel(p, buffer, marks, kernels);
    if !ok { return; }
    ok := FillModules(p, buffer, tables, names, segments);
    if !ok { return; }
    AllFilled(p, buffer);
  }

  lemma NothingWritten(p: Input, buffer: array<u8>)
    requires Fits32(Total(p)) && buffer.Length == Total(p) && forall x | 0 <= x < buffer.Length :: buffer[x] == 0
    ensures Progress(p, buffer, MarksAtStart(p))
  {
    ZoneOffset(p, 0);
    assert MarksAtStart(p).List() == ZoneStarts(p);
    hide Total, Pack;
    NothingFilled(buffer[..], Pack(p), ZoneStarts(p));
  }

  lemma MarksAfterKernel(p: Input)
    ensures MarksAtStart(p).(header := HEADER_SIZE, kernelTable := ModuleTableStart(p), kernelData := ModuleDataStart(p))
         == MarksAt(p, 0)
  {
    OffEnds(Segments(p.modules));
    OffEnds(Names(p.modules));
    OffEnds(ModuleData(p.modules));
  }

  lemma AllFilled(p: Input, buffer: array<u8>)
    requires Fits32(Total(p)) && Progress(p, buffer, MarksAt(p, |p.modules|))
    ensures buffer[..] == Pack(p)
  {
    var marks := MarksAt(p, |p.modules|).List();
    hide Pack;
    assert forall k | 0 <= k < 8 && k != 5 :: marks[k] == Start(p, k + 1);
    FilledIsPacked(p, buffer[..], marks);
  }

  lemma PlacedRecords(p: Input, kernels: seq<KernelSegment>, segments: seq<seq<ModuleSegment>>)
    requires Fits32(Total(p)) && |kernels| == |p.kernel| && |segments| == |p.modules|
    requires forall i | 0 <= i < |p.kernel| :: IsPlacedKernel(p, i, kernels[i])
    requires forall m | 0 <= m < |p.modules| :: IsPlacedTable(p, m, segments[m])
    ensures kernels == PlacedKernels(p)
    ensures forall m | 0 <= m < |p.modules| :: segments[m] == PlacedSegments(p, m)
  {
    hide Total, KernelDataOff, SegmentDataOff;
    forall m | 0 <= m < |p.modules| ensures segments[m] == PlacedSegments(p, m) {
      assert IsPlacedTable(p, m, segments[m]);
      assert forall j | 0 <= j < |segments[m]| :: IsPlacedSegment(p, m, j, segments[m][j]);
    }
  }

  // ---- The packer ----

  /** `build_image`. For inputs whose file sizes are their data lengths it succeeds exactly
      on good inputs. Whatever it returns is the expected image, and parses. */
  method BuildImage(p: Input) returns (r: Option<SystemImage>)
    ensures r.Some? ==> Good(p) && IsImage(Pack(p), r.value) && r.value == Expected(p)
    ensures Good(p) && SizesMatch(p) ==> r.Some?
  {
    hide Total, Pack, IsImage, SizesMatch, Expected, Holds, Serialize, PlacedKernels, PlacedSegments, GoodModule, ValidKernelRecords,
         IsPlacedKernel, IsPlacedTable, NamesStart, DataStart, ModuleDataStart, HeaderOf;
    var tables, cursor := PlaceSegmentTables(p);
    if tables.None? { return None; }
    var names;
    names, cursor := PlaceNames(p, cursor);
    if names.None? { return None; }
    var kernels;
    kernels, cursor := PlaceKernelData(p, cursor);
    if kernels.None? { return None; }
    var segments;
    segments, cursor := PlaceModules(p, cursor);
    if segments.None? { return None; }
    if cursor > SYSTEM_ROM_SIZE { return None; }
    PlacedRecords(p, kernels.value, segments.value);
    HeaderFitsIsValid(p);
    var header := EncodeHeader(HeaderOf(p));
    if header.None? { return None; }
    var buffer := new u8[cursor](_ => 0);
    GoodRecordsAreValid(p);
    var ok := FillAll(p, buffer, header.value, kernels.value, tables.value, names.value, segments.value);
    if !ok { return None; }
    r := Parse(buffer[..]);
    if r.Some? {
      OnlyGoodInputsPack(p, r.value);
    } else if Good(p) && SizesMatch(p) {
      PackedInputsAreAnImage(p);
    }
  }

  lemma GoodRecordsAreValid(p: Input)
    ensures Good(p) ==> AllRecordsValid(p)
  {
    if Good(p) {
      hide ValidKernelRecords, ValidModuleRecords, Total;
      forall m | 0 <= m < |p.modules| ensures GoodModule(p.modules[m]) {}
    }
  }
}
