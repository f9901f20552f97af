/** The packer: a moving cursor and a byte buffer filled in place produce exactly the
    concatenation of header, tables, names and payloads, and the parser gives the inputs
    back (crates/minemu-image/src/format.rs, `build_image`). */
module ImagePack {
  import opened Platform
  import opened Bytes
  import opened Records
  import opened Validation
  import opened ImageFormat
  import opened Layout

  datatype KernelInput = KernelInput(record: KernelSegment, data: seq<u8>)
  datatype SegmentInput = SegmentInput(record: ModuleSegment, data: seq<u8>)
  datatype ModuleInput = ModuleInput(name: seq<u8>, entry: u32, segments: seq<SegmentInput>)
  datatype Input = Input(entry: u32, kernel: seq<KernelInput>, modules: seq<ModuleInput>)

  // ---- Where everything goes ----

  /** `align4`. */
  function Align4(n: nat): (r: nat)
    ensures n <= r < n + 4 && r % 4 == 0
  {
    (n + 3) / 4 * 4
  }

  function Names(modules: seq<ModuleInput>): seq<seq<u8>> { seq(|modules|, i requires 0 <= i < |modules| => modules[i].name) }

  function KernelData(kernel: seq<KernelInput>): seq<seq<u8>> { seq(|kernel|, i requires 0 <= i < |kernel| => kernel[i].data) }

  function SegmentData(segments: seq<SegmentInput>): seq<seq<u8>> {
    seq(|segments|, i requires 0 <= i < |segments| => segments[i].data)
  }

  function ModuleData(modules: seq<ModuleInput>): seq<seq<u8>> {
    seq(|modules|, i requires 0 <= i < |modules| => Flat(SegmentData(modules[i].segments)))
  }

  function Segments(modules: seq<ModuleInput>): seq<seq<SegmentInput>> {
    seq(|modules|, i requires 0 <= i < |modules| => modules[i].segments)
  }

  function ModuleTableStart(p: Input): nat { HEADER_SIZE + RECORD_SIZE * |p.kernel| }

  function SegmentTablesStart(p: Input): nat { ModuleTableStart(p) + RECORD_SIZE * |p.modules| }

  /** Module `m`'s segment table. */
  function SegmentTableOff(p: Input, m: nat): nat
    requires m <= |p.modules|
  {
    SegmentTablesStart(p) + RECORD_SIZE * Off(Segments(p.modules), m)
  }

  function NamesStart(p: Input): nat { SegmentTableOff(p, |p.modules|) }

  function NameOff(p: Input, m: nat): nat
    requires m <= |p.modules|
  {
    NamesStart(p) + Off(Names(p.modules), m)
  }

  function NamesEnd(p: Input): nat { NameOff(p, |p.modules|) }

  function DataStart(p: Input): nat { Align4(NamesEnd(p)) }

  function KernelDataOff(p: Input, i: nat): nat
    requires i <= |p.kernel|
  {
    DataStart(p) + Off(KernelData(p.kernel), i)
  }

  function ModuleDataStart(p: Input): nat { KernelDataOff(p, |p.kernel|) }

  /** The payloads of module `m`, and its segment `j`. */
  function ModuleDataOff(p: Input, m: nat): nat
    requires m <= |p.modules|
  {
    ModuleDataStart(p) + Off(ModuleData(p.modules), m)
  }

  function SegmentDataOff(p: Input, m: nat, j: nat): nat
    requires m < |p.modules| && j <= |p.modules[m].segments|
  {
    ModuleDataOff(p, m) + Off(SegmentData(p.modules[m].segments), j)
  }

  function Total(p: Input): nat { ModuleDataOff(p, |p.modules|) }

  /** `size32` does not fail. */
  predicate Fits32(n: nat) { n < 0x1_0000_0000 }

  // ---- The records, with the data offsets that packing assigns ----

  function PlacedKernel(p: Input, i: nat): KernelSegment
    requires i < |p.kernel| && Fits32(Total(p))
  {
    KernelDataInside(p, i);
    var k := p.kernel[i];
    if k.data == [] then k.record else k.record.(dataOffset := KernelDataOff(p, i))
  }

  function PlacedSegment(p: Input, m: nat, j: nat): ModuleSegment
    requires m < |p.modules| && j < |p.modules[m].segments| && Fits32(Total(p))
  {
    SegmentDataInside(p, m, j);
    var s := p.modules[m].segments[j];
    if s.data == [] then s.record else s.record.(dataOffset := SegmentDataOff(p, m, j))
  }

  function PlacedModule(p: Input, m: nat): ModuleRecord
    requires m < |p.modules| && Fits32(Total(p))
  {
    OffsetsInside(p, m);
    ModuleRecord(NameOff(p, m), |p.modules[m].name|, SegmentTableOff(p, m), |p.modules[m].segments|, p.modules[m].entry)
  }

  lemma ZonesInOrder(p: Input)
    ensures HEADER_SIZE <= ModuleTableStart(p) <= SegmentTablesStart(p) <= NamesStart(p) <= NamesEnd(p)
              <= DataStart(p) <= ModuleDataStart(p) <= Total(p)
  {}

  lemma KernelDataInside(p: Input, i: nat)
    requires i < |p.kernel|
    ensures DataStart(p) <= KernelDataOff(p, i) <= KernelDataOff(p, i) + |p.kernel[i].data| <= ModuleDataStart(p) <= Total(p)
  {
    PartsInOrder(KernelData(p.kernel), i, |p.kernel|);
  }

  /** The cursor before, between and after the payload loops and the name loop. */
  lemma CursorEnds(p: Input)
    ensures KernelDataOff(p, 0) == DataStart(p) && KernelDataOff(p, |p.kernel|) == ModuleDataStart(p)
    ensures ModuleDataOff(p, 0) == ModuleDataStart(p) && ModuleDataOff(p, |p.modules|) == Total(p)
    ensures NameOff(p, 0) == NamesStart(p) && NameOff(p, |p.modules|) == NamesEnd(p)
    ensures SegmentTableOff(p, 0) == SegmentTablesStart(p) && SegmentTableOff(p, |p.modules|) == NamesStart(p)
  {
    OffEnds(KernelData(p.kernel));
    OffEnds(ModuleData(p.modules));
    OffEnds(Names(p.modules));
    OffEnds(Segments(p.modules));
    hide Off, Flat;
  }

  lemma KernelStep(p: Input, i: nat)
    requires i < |p.kernel|
    ensures KernelDataOff(p, i + 1) == KernelDataOff(p, i) + |p.kernel[i].data| <= Total(p)
    ensures DataStart(p) <= KernelDataOff(p, i)
  {
    KernelDataInside(p, i);
    OffNext(KernelData(p.kernel), i);
    hide Total, DataStart;
  }

  lemma SegmentStep(p: Input, m: nat, j: nat)
    requires m < |p.modules| && j < |p.modules[m].segments|
    ensures SegmentDataOff(p, m, j + 1) == SegmentDataOff(p, m, j) + |p.modules[m].segments[j].data| <= Total(p)
    ensures ModuleDataOff(p, m) <= SegmentDataOff(p, m, j)
  {
    SegmentDataInside(p, m, j);
    OffNext(SegmentData(p.modules[m].segments), j);
    hide Total, ModuleDataOff;
  }

  lemma ModuleDataInside(p: Input, m: nat)
    requires m < |p.modules|
    ensures ModuleDataStart(p) <= ModuleDataOff(p, m)
    ensures ModuleDataOff(p, m) + |Flat(SegmentData(p.modules[m].segments))| == ModuleDataOff(p, m + 1) <= Total(p)
  {
    OffNext(ModuleData(p.modules), m);
    OffMonotone(ModuleData(p.modules), m + 1, |p.modules|);
  }

  lemma SegmentDataInside(p: Input, m: nat, j: nat)
    requires m < |p.modules| && j < |p.modules[m].segments|
    ensures ModuleDataOff(p, m) <= SegmentDataOff(p, m, j)
         <= SegmentDataOff(p, m, j) + |p.modules[m].segments[j].data| <= ModuleDataOff(p, m + 1) <= Total(p)
  {
    var data := SegmentData(p.modules[m].segments);
    PartsInOrder(data, j, |data|);
    OffEnds(data);
    ModuleDataInside(p, m);
  }

  lemma OffsetsInside(p: Input, m: nat)
    requires m < |p.modules|
    ensures SegmentTablesStart(p) <= SegmentTableOff(p, m)
    ensures SegmentTableOff(p, m) + RECORD_SIZE * |p.modules[m].segments| == SegmentTableOff(p, m + 1) <= NamesStart(p)
    ensures NamesStart(p) <= NameOff(p, m)
    ensures NameOff(p, m) + |p.modules[m].name| == NameOff(p, m + 1) <= NamesEnd(p) <= Total(p)
  {
    OffNext(Segments(p.modules), m);
    OffMonotone(Segments(p.modules), m + 1, |p.modules|);
    OffNext(Names(p.modules), m);
    OffMonotone(Names(p.modules), m + 1, |p.modules|);
    ZonesInOrder(p);
  }

  function HeaderOf(p: Input): ImageHeader
    requires Fits32(Total(p))
  {
    ZonesInOrder(p);
    ImageHeader(Total(p), HEADER_SIZE, |p.kernel|, ModuleTableStart(p), |p.modules|,
                BOOTSTRAP_ENTRY_PADDR, p.entry, BOOT_INFO_PADDR)
  }

  // ---- The image as a concatenation ----

  function KernelRecords(p: Input): seq<seq<u8>>
    requires Fits32(Total(p))
  {
    seq(|p.kernel|, i requires 0 <= i < |p.kernel| => Serialize(PlacedKernel(p, i).Words()))
  }

  function ModuleRecords(p: Input): seq<seq<u8>>
    requires Fits32(Total(p))
  {
    seq(|p.modules|, m requires 0 <= m < |p.modules| => Serialize(PlacedModule(p, m).Words()))
  }

  function SegmentRecords(p: Input, m: nat): seq<seq<u8>>
    requires m < |p.modules| && Fits32(Total(p))
  {
    seq(|p.modules[m].segments|, j requires 0 <= j < |p.modules[m].segments| => Serialize(PlacedSegment(p, m, j).Words()))
  }

  function SegmentTables(p: Input): seq<seq<u8>>
    requires Fits32(Total(p))
  {
    seq(|p.modules|, m requires 0 <= m < |p.modules| => Flat(SegmentRecords(p, m)))
  }

  /** Header, kernel table, module table, segment tables, names, padding, kernel payloads,
      module payloads. */
  function Zone(p: Input, k: nat): seq<u8>
    requires Fits32(Total(p)) && k < 8
  {
    if k == 0 then Serialize(HeaderOf(p).Words())
    else if k == 1 then Flat(KernelRecords(p))
    else if k == 2 then Flat(ModuleRecords(p))
    else if k == 3 then Flat(SegmentTables(p))
    else if k == 4 then Flat(Names(p.modules))
    else if k == 5 then Zeros(DataStart(p) - NamesEnd(p))
    else if k == 6 then Flat(KernelData(p.kernel))
    else Flat(ModuleData(p.modules))
  }

  function Start(p: Input, k: nat): nat {
    if k == 0 then 0
    else if k == 1 then HEADER_SIZE
    else if k == 2 then ModuleTableStart(p)
    else if k == 3 then SegmentTablesStart(p)
    else if k == 4 then NamesStart(p)
    else if k == 5 then NamesEnd(p)
    else if k == 6 then DataStart(p)
    else if k == 7 then ModuleDataStart(p)
    else Total(p)
  }

  function Zones(p: Input): seq<seq<u8>>
    requires Fits32(Total(p))
  {
    seq(8, k requires 0 <= k < 8 => Zone(p, k))
  }

  function Starts(p: Input): seq<nat> { seq(9, k requires 0 <= k < 9 => Start(p, k)) }

  function Pack(p: Input): seq<u8>
    requires Fits32(Total(p))
  {
    Flat(Zones(p))
  }

  lemma RecordsLength(p: Input)
    requires Fits32(Total(p))
    ensures |Flat(KernelRecords(p))| == RECORD_SIZE * |p.kernel|
    ensures |Flat(ModuleRecords(p))| == RECORD_SIZE * |p.modules|
  {
    OffUniform(KernelRecords(p), RECORD_SIZE, |p.kernel|);
    OffEnds(KernelRecords(p));
    OffUniform(ModuleRecords(p), RECORD_SIZE, |p.modules|);
    OffEnds(ModuleRecords(p));
  }

  lemma SegmentRecordsLength(p: Input, m: nat)
    requires Fits32(Total(p)) && m < |p.modules|
    ensures |SegmentTables(p)[m]| == RECORD_SIZE * |p.modules[m].segments|
  {
    OffUniform(SegmentRecords(p, m), RECORD_SIZE, |p.modules[m].segments|);
    OffEnds(SegmentRecords(p, m));
  }

  lemma {:induction false} SegmentTablesScale(p: Input, m: nat)
    requires Fits32(Total(p)) && m <= |p.modules|
    ensures Off(SegmentTables(p), m) == RECORD_SIZE * Off(Segments(p.modules), m)
  {
    hide Total;
    var tables, segments := SegmentTables(p), Segments(p.modules);
    if m == 0 {
      OffEnds(tables);
      OffEnds(segments);
    } else {
      SegmentTablesScale(p, m - 1);
      SegmentRecordsLength(p, m - 1);
      OffNext(tables, m - 1);
      OffNext(segments, m - 1);
      hide SegmentTables, Off;
    }
  }

  lemma ZoneArithmetic(p: Input)
    requires Fits32(Total(p))
    ensures HEADER_SIZE + |Flat(KernelRecords(p))| == ModuleTableStart(p)
    ensures ModuleTableStart(p) + |Flat(ModuleRecords(p))| == SegmentTablesStart(p)
    ensures SegmentTablesStart(p) + |Flat(SegmentTables(p))| == NamesStart(p)
    ensures NamesStart(p) + |Flat(Names(p.modules))| == NamesEnd(p)
    ensures DataStart(p) + |Flat(KernelData(p.kernel))| == ModuleDataStart(p)
    ensures ModuleDataStart(p) + |Flat(ModuleData(p.modules))| == Total(p)
  {
    RecordsLength(p);
    SegmentTablesScale(p, |p.modules|);
    OffEnds(SegmentTables(p));
    OffEnds(Segments(p.modules));
    OffEnds(Names(p.modules));
    OffEnds(KernelData(p.kernel));
    OffEnds(ModuleData(p.modules));
    hide Off, Flat, Align4, SegmentTables, KernelRecords, ModuleRecords, Names, KernelData, ModuleData, Segments;
  }

  /** Each zone ends where the next one starts. */
  lemma ZoneLength(p: Input, k: nat)
    requires Fits32(Total(p)) && k < 8
    ensures Start(p, k) + |Zone(p, k)| == Start(p, k + 1)
  {
    hide Flat, Serialize, HeaderOf, Total, ModuleTableStart, SegmentTablesStart, NamesStart, NamesEnd, DataStart, ModuleDataStart,
         KernelRecords, ModuleRecords, SegmentTables, Names, KernelData, ModuleData;
    ZonesInOrder(p);
    ZoneArithmetic(p);
  }

  /** The zones start where the cursor says they do. */
  lemma ZoneOffset(p: Input, k: nat)
    requires Fits32(Total(p)) && k <= 8
    ensures Off(Zones(p), k) == Start(p, k)
    ensures |Pack(p)| == Total(p)
  {
    var zones, starts := Zones(p), Starts(p);
    forall j: nat | j < 8 ensures starts[j] + |zones[j]| == starts[j + 1] { ZoneLength(p, j); }
    OffEnds(zones);
    OffFromLengths(zones, starts, k);
    OffFromLengths(zones, starts, 8);
    hide Off, Flat, Zone;
  }

  // ---- What is found where ----

  lemma InZone(p: Input, k: nat, inner: nat, part: seq<u8>)
    requires Fits32(Total(p)) && k < 8 && At(Zone(p, k), inner, part)
    ensures At(Pack(p), Start(p, k) + inner, part)
  {
    ZoneOffset(p, k);
    hide Total, Zone, Start;
    FlatAt(Zones(p), k);
    AtInside(Pack(p), Start(p, k), Zones(p)[k], inner, part);
  }

  lemma HeaderAt(p: Input)
    requires Fits32(Total(p))
    ensures At(Pack(p), 0, Serialize(HeaderOf(p).Words()))
  {
    hide Total, Flat, Off, Serialize, HeaderOf;
    var header := Serialize(HeaderOf(p).Words());
    InZone(p, 0, 0, header);
  }

  lemma KernelRecordAt(p: Input, i: nat)
    requires Fits32(Total(p)) && i < |p.kernel|
    ensures At(Pack(p), HEADER_SIZE + RECORD_SIZE * i, Serialize(PlacedKernel(p, i).Words()))
  {
    hide Total, Flat, Serialize, PlacedKernel, At, Pack;
    var records := KernelRecords(p);
    FlatAt(records, i);
    OffUniform(records, RECORD_SIZE, i);
    hide Off;
    InZone(p, 1, RECORD_SIZE * i, records[i]);
  }

  lemma ModuleRecordAt(p: Input, m: nat)
    requires Fits32(Total(p)) && m < |p.modules|
    ensures At(Pack(p), ModuleTableStart(p) + RECORD_SIZE * m, Serialize(PlacedModule(p, m).Words()))
  {
    hide Total, Flat, Serialize, PlacedModule, At, Pack;
    var records := ModuleRecords(p);
    FlatAt(records, m);
    OffUniform(records, RECORD_SIZE, m);
    hide Off, NamesStart, NamesEnd, DataStart, ModuleDataStart, SegmentTablesStart;
    InZone(p, 2, RECORD_SIZE * m, records[m]);
  }

  lemma SegmentRecordAt(p: Input, m: nat, j: nat)
    requires Fits32(Total(p)) && m < |p.modules| && j < |p.modules[m].segments|
    ensures At(Pack(p), SegmentTableOff(p, m) + RECORD_SIZE * j, Serialize(PlacedSegment(p, m, j).Words()))
  {
    hide Total, Flat, Serialize, PlacedSegment, At, Pack;
    var records, tables := SegmentRecords(p, m), SegmentTables(p);
    FlatAt(records, j);
    OffUniform(records, RECORD_SIZE, j);
    FlatAt(tables, m);
    SegmentTablesScale(p, m);
    hide Off, NamesStart, NamesEnd, DataStart, ModuleDataStart, ModuleTableStart;
    AtInside(Flat(tables), Off(tables, m), Flat(records), RECORD_SIZE * j, records[j]);
    InZone(p, 3, Off(tables, m) + RECORD_SIZE * j, records[j]);
  }

  lemma NameAt(p: Input, m: nat)
    requires Fits32(Total(p)) && m < |p.modules|
    ensures At(Pack(p), NameOff(p, m), p.modules[m].name)
  {
    hide Total, Flat, At, Pack;
    var names := Names(p.modules);
    FlatAt(names, m);
    hide Off, NamesStart, NamesEnd, DataStart, ModuleDataStart, ModuleTableStart;
    InZone(p, 4, Off(names, m), names[m]);
  }

  lemma KernelDataAt(p: Input, i: nat)
    requires Fits32(Total(p)) && i < |p.kernel|
    ensures At(Pack(p), KernelDataOff(p, i), p.kernel[i].data)
  {
    hide Total, Flat, At, Pack;
    var data := KernelData(p.kernel);
    FlatAt(data, i);
    hide Off, NamesStart, NamesEnd, DataStart, ModuleDataStart, ModuleTableStart;
    InZone(p, 6, Off(data, i), data[i]);
  }

  lemma SegmentDataAt(p: Input, m: nat, j: nat)
    requires Fits32(Total(p)) && m < |p.modules| && j < |p.modules[m].segments|
    ensures At(Pack(p), SegmentDataOff(p, m, j), p.modules[m].segments[j].data)
  {
    hide Total, Flat, At, Pack;
    var data, all := SegmentData(p.modules[m].segments), ModuleData(p.modules);
    FlatAt(data, j);
    FlatAt(all, m);
    hide Off, NamesStart, NamesEnd, DataStart, ModuleDataStart, ModuleTableStart;
    AtInside(Flat(all), Off(all, m), Flat(data), Off(data, j), data[j]);
    InZone(p, 7, Off(all, m) + Off(data, j), data[j]);
  }

  lemma PaddingIsZero(p: Input, x: nat)
    requires Fits32(Total(p)) && NamesEnd(p) <= x < DataStart(p)
    ensures x < |Pack(p)| && Pack(p)[x] == 0
  {
    hide Total, Flat, Pack, Off;
    var pad := Zeros(DataStart(p) - NamesEnd(p));
    InZone(p, 5, 0, pad);
    hide NamesStart, NamesEnd, DataStart, ModuleDataStart, ModuleTableStart;
    assert Pack(p)[x] == Pack(p)[NamesEnd(p)..NamesEnd(p) + |pad|][x - NamesEnd(p)];
  }
}
