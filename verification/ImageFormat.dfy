/** The system-image format: which byte strings are images, and the parser that accepts
    exactly those (crates/minemu-image/src/format.rs). */
module ImageFormat {
  import opened Platform
  import opened Bytes
  import opened Records
  import opened Validation

  /** A parsed user module; its name is the UTF-8 encoding of a string. */
  datatype ImageModule = ImageModule(name: seq<u8>, record: ModuleRecord, segments: seq<ModuleSegment>)

  datatype SystemImage = SystemImage(
    bytes: seq<u8>, header: ImageHeader, kernelSegments: seq<KernelSegment>, modules: seq<ImageModule>)

  datatype Span = Span(start: nat, end: nat) {
    predicate Overlaps(other: Span) { start < other.end && other.start < end }

    predicate Holds(x: nat) { start <= x < end }
  }

  /** `Span::new`. */
  function SpanAt(offset: nat, length: nat): Span { Span(offset, offset + length) }

  predicate Continues(byte: u8) { 0x80 <= byte < 0xc0 }

  /** Well-formed UTF-8 (RFC 3629, section 4). */
  predicate ValidUtf8(s: seq<u8>) {
    || s == []
    || (s[0] < 0x80 && ValidUtf8(s[1..]))
    || (|s| >= 2 && 0xc2 <= s[0] < 0xe0 && Continues(s[1]) && ValidUtf8(s[2..]))
    || (|s| >= 3 && 0xe0 <= s[0] < 0xf0 && Continues(s[1]) && Continues(s[2])
        && (s[0] == 0xe0 ==> s[1] >= 0xa0) && (s[0] == 0xed ==> s[1] < 0xa0) && ValidUtf8(s[3..]))
    || (|s| >= 4 && 0xf0 <= s[0] < 0xf5 && Continues(s[1]) && Continues(s[2]) && Continues(s[3])
        && (s[0] == 0xf0 ==> s[1] >= 0x90) && (s[0] == 0xf4 ==> s[1] < 0x90) && ValidUtf8(s[4..]))
  }

  // ---- Occupied ranges, in the order in which the parser claims them ----

  /** A payload occupies bytes only if it is nonempty, wherever its offset points. */
  function PayloadSpans(offset: nat, size: nat): seq<Span> {
    if size == 0 then [] else [SpanAt(offset, size)]
  }

  function KernelSpans(segments: seq<KernelSegment>): seq<Span> {
    if segments == [] then []
    else
      var last := segments[|segments| - 1];
      KernelSpans(segments[..|segments| - 1]) + PayloadSpans(last.dataOffset, last.fileSize)
  }

  function SegmentSpans(segments: seq<ModuleSegment>): seq<Span> {
    if segments == [] then []
    else
      var last := segments[|segments| - 1];
      SegmentSpans(segments[..|segments| - 1]) + PayloadSpans(last.dataOffset, last.fileSize)
  }

  function NameSpan(r: ModuleRecord): Span { SpanAt(r.nameOffset, r.nameLength) }

  function TableSpan(r: ModuleRecord): Span { SpanAt(r.segmentTableOffset, r.segmentCount * RECORD_SIZE) }

  function ModuleSpans(m: ImageModule): seq<Span> {
    [NameSpan(m.record), TableSpan(m.record)] + SegmentSpans(m.segments)
  }

  function ModulesSpans(modules: seq<ImageModule>): seq<Span> {
    if modules == [] then []
    else ModulesSpans(modules[..|modules| - 1]) + ModuleSpans(modules[|modules| - 1])
  }

  function TableSpans(h: ImageHeader): seq<Span> {
    [Span(0, HEADER_SIZE), SpanAt(h.kernelTableOffset, h.kernelCount * RECORD_SIZE),
     SpanAt(h.moduleTableOffset, h.moduleCount * RECORD_SIZE)]
  }

  function AllSpans(img: SystemImage): seq<Span> {
    TableSpans(img.header) + KernelSpans(img.kernelSegments) + ModulesSpans(img.modules)
  }

  /** Every span lies in the image, and no two overlap. */
  ghost predicate Packed(spans: seq<Span>, size: nat) {
    && (forall i | 0 <= i < |spans| :: spans[i].end <= size)
    && forall i, j | 0 <= i < j < |spans| :: !spans[i].Overlaps(spans[j])
  }

  // ---- Images ----

  function Record(bytes: seq<u8>, table: nat, i: nat): seq<u8>
    requires table + (i + 1) * RECORD_SIZE <= |bytes|
  {
    bytes[table + i * RECORD_SIZE..table + (i + 1) * RECORD_SIZE]
  }

  ghost predicate KernelTable(bytes: seq<u8>, table: nat, segments: seq<KernelSegment>) {
    && table + |segments| * RECORD_SIZE <= |bytes|
    && forall i | 0 <= i < |segments| :: DecodeKernelSegment(Record(bytes, table, i)) == Some(segments[i])
  }

  ghost predicate SegmentTable(bytes: seq<u8>, table: nat, segments: seq<ModuleSegment>) {
    && table + |segments| * RECORD_SIZE <= |bytes|
    && forall i | 0 <= i < |segments| :: DecodeModuleSegment(Record(bytes, table, i)) == Some(segments[i])
  }

  ghost predicate IsModule(bytes: seq<u8>, record: seq<u8>, m: ImageModule) {
    && DecodeModuleRecord(record) == Some(m.record)
    && NameSpan(m.record).end <= |bytes|
    && m.name == bytes[m.record.nameOffset..NameSpan(m.record).end]
    && m.name != [] && ValidUtf8(m.name)
    && |m.segments| == m.record.segmentCount
    && SegmentTable(bytes, m.record.segmentTableOffset, m.segments)
    && ValidModuleRecords(m.segments, m.record.entry)
  }

  ghost predicate ModuleTable(bytes: seq<u8>, table: nat, modules: seq<ImageModule>) {
    && table + |modules| * RECORD_SIZE <= |bytes|
    && (forall i | 0 <= i < |modules| :: IsModule(bytes, Record(bytes, table, i), modules[i]))
    && DistinctNames(modules)
  }

  ghost predicate DistinctNames(modules: seq<ImageModule>) {
    forall i, j | 0 <= i < j < |modules| :: modules[i].name != modules[j].name
  }

  /** `bytes` decode to `img`, whatever ranges the parts occupy: everything the parser checks
      except the claims. */
  ghost predicate Decodes(bytes: seq<u8>, img: SystemImage) {
    && img.bytes == bytes
    && DecodeHeader(bytes) == Some(img.header) && img.header.imageSize == |bytes|
    && |img.kernelSegments| == img.header.kernelCount
    && KernelTable(bytes, img.header.kernelTableOffset, img.kernelSegments)
    && ValidKernelRecords(img.kernelSegments, img.header.kernelEntry)
    && |img.modules| == img.header.moduleCount
    && ModuleTable(bytes, img.header.moduleTableOffset, img.modules)
  }

  /** `bytes` is exactly the image `img`. */
  ghost predicate IsImage(bytes: seq<u8>, img: SystemImage) {
    Decodes(bytes, img) && Packed(AllSpans(img), |bytes|)
  }

  // ---- Bytes determine their image ----

  lemma SameSegments(bytes: seq<u8>, table: nat, a: seq<ModuleSegment>, b: seq<ModuleSegment>)
    requires SegmentTable(bytes, table, a) && SegmentTable(bytes, table, b) && |a| == |b|
    ensures a == b
  {
    hide DecodeModuleSegment, Record;
    forall j | 0 <= j < |a| ensures a[j] == b[j] {
      assert Some(a[j]) == DecodeModuleSegment(Record(bytes, table, j)) == Some(b[j]);
    }
  }

  lemma SameKernels(bytes: seq<u8>, table: nat, a: seq<KernelSegment>, b: seq<KernelSegment>)
    requires KernelTable(bytes, table, a) && KernelTable(bytes, table, b) && |a| == |b|
    ensures a == b
  {
    hide DecodeKernelSegment, Record;
    forall j | 0 <= j < |a| ensures a[j] == b[j] {
      assert Some(a[j]) == DecodeKernelSegment(Record(bytes, table, j)) == Some(b[j]);
    }
  }

  lemma ModuleIsUnique(bytes: seq<u8>, record: seq<u8>, a: ImageModule, b: ImageModule)
    requires IsModule(bytes, record, a) && IsModule(bytes, record, b)
    ensures a == b
  {
    hide DecodeModuleRecord, SegmentTable, ValidModuleRecords, ValidUtf8;
    SameSegments(bytes, a.record.segmentTableOffset, a.segments, b.segments);
  }

  /** No byte string decodes to two images. */
  lemma ImageIsUnique(bytes: seq<u8>, a: SystemImage, b: SystemImage)
    requires Decodes(bytes, a) && Decodes(bytes, b)
    ensures a == b
  {
    hide DecodeHeader, KernelTable, ValidKernelRecords, IsModule, Record;
    SameKernels(bytes, a.header.kernelTableOffset, a.kernelSegments, b.kernelSegments);
    forall i | 0 <= i < |a.modules| ensures a.modules[i] == b.modules[i] {
      ModuleIsUnique(bytes, Record(bytes, a.header.moduleTableOffset, i), a.modules[i], b.modules[i]);
    }
  }

  // ---- The parser ----

  /** The ranges claimed so far; `occupy` refuses a range outside the image or over another. */
  class ImageMap {
    var spans: seq<Span>

    constructor ()
      ensures spans == [Span(0, HEADER_SIZE)]
    {
      spans := [Span(0, HEADER_SIZE)];
    }

    method Occupy(candidate: Span, imageSize: nat) returns (ok: bool)
      requires Packed(spans, imageSize)
      modifies this
      ensures ok <==> Packed(old(spans) + [candidate], imageSize)
      ensures spans == if ok then old(spans) + [candidate] else old(spans)
      ensures Packed(spans, imageSize)
    {
      ghost var all := spans + [candidate];
      assert all[|spans|] == candidate;
      if candidate.end > imageSize { return false; }
      for i := 0 to |spans|
        invariant spans == old(spans)
        invariant forall j | 0 <= j < i :: !spans[j].Overlaps(candidate)
      {
        if spans[i].Overlaps(candidate) {
          assert all[i] == spans[i];
          return false;
        }
      }
      spans := spans + [candidate];
      return true;
    }
  }

  lemma PackedPrefix(a: seq<Span>, b: seq<Span>, size: nat)
    requires Packed(a + b, size)
    ensures Packed(a, size)
  {
    assert forall i | 0 <= i < |a| :: (a + b)[i] == a[i];
  }

  lemma PackedFront(before: seq<Span>, front: seq<Span>, rest: seq<Span>, size: nat)
    requires Packed(before + (front + rest), size)
    ensures Packed(before + front, size)
  {
    Regroup(before, front, rest);
    hide Packed;
    PackedPrefix(before + front, rest, size);
  }

  lemma {:induction false} KernelSpansPrefix(segments: seq<KernelSegment>, i: nat) returns (rest: seq<Span>)
    requires i <= |segments|
    ensures KernelSpans(segments) == KernelSpans(segments[..i]) + rest
    decreases |segments|
  {
    hide PayloadSpans;
    if i == |segments| {
      assert segments[..i] == segments;
      rest := [];
    } else {
      var front := segments[..|segments| - 1];
      var r := KernelSpansPrefix(front, i);
      var last := segments[|segments| - 1];
      assert front[..i] == segments[..i];
      rest := r + PayloadSpans(last.dataOffset, last.fileSize);
    }
  }

  lemma {:induction false} SegmentSpansPrefix(segments: seq<ModuleSegment>, i: nat) returns (rest: seq<Span>)
    requires i <= |segments|
    ensures SegmentSpans(segments) == SegmentSpans(segments[..i]) + rest
    decreases |segments|
  {
    hide PayloadSpans;
    if i == |segments| {
      assert segments[..i] == segments;
      rest := [];
    } else {
      var front := segments[..|segments| - 1];
      var r := SegmentSpansPrefix(front, i);
      var last := segments[|segments| - 1];
      assert front[..i] == segments[..i];
      rest := r + PayloadSpans(last.dataOffset, last.fileSize);
    }
  }

  lemma {:induction false} ModulesSpansPrefix(modules: seq<ImageModule>, i: nat) returns (rest: seq<Span>)
    requires i <= |modules|
    ensures ModulesSpans(modules) == ModulesSpans(modules[..i]) + rest
    decreases |modules|
  {
    hide ModuleSpans;
    if i == |modules| {
      assert modules[..i] == modules;
      rest := [];
    } else {
      var front := modules[..|modules| - 1];
      var r := ModulesSpansPrefix(front, i);
      assert front[..i] == modules[..i];
      rest := r + ModuleSpans(modules[|modules| - 1]);
    }
  }

  lemma KernelTableIsEmpty(bytes: seq<u8>, table: nat)
    requires table <= |bytes|
    ensures KernelTable(bytes, table, []) && KernelSpans([]) == []
  {}

  lemma KernelTableGrows(bytes: seq<u8>, table: nat, segments: seq<KernelSegment>, next: KernelSegment)
    requires table + (|segments| + 1) * RECORD_SIZE <= |bytes| && KernelTable(bytes, table, segments)
    requires DecodeKernelSegment(Record(bytes, table, |segments|)) == Some(next)
    ensures KernelTable(bytes, table, segments + [next])
    ensures KernelSpans(segments + [next]) == KernelSpans(segments) + PayloadSpans(next.dataOffset, next.fileSize)
  {
    hide DecodeKernelSegment, Record, PayloadSpans;
    assert (segments + [next])[..|segments|] == segments;
  }

  /** What the next record of a table that fits decodes to, and that its payload fits. */
  lemma KernelTableNext(bytes: seq<u8>, table: nat, full: seq<KernelSegment>, i: nat, before: seq<Span>)
    requires i < |full| && KernelTable(bytes, table, full) && Packed(before + KernelSpans(full), |bytes|)
    ensures DecodeKernelSegment(Record(bytes, table, i)) == Some(full[i]) && full[..i + 1] == full[..i] + [full[i]]
    ensures Packed(before + (KernelSpans(full[..i]) + PayloadSpans(full[i].dataOffset, full[i].fileSize)), |bytes|)
  {
    hide DecodeKernelSegment, Packed, PayloadSpans, KernelSpans, Record;
    KernelSpansNext(full, i, before, |bytes|);
  }

  lemma KernelSpansNext(full: seq<KernelSegment>, i: nat, before: seq<Span>, size: nat)
    requires i < |full| && Packed(before + KernelSpans(full), size)
    ensures Packed(before + (KernelSpans(full[..i]) + PayloadSpans(full[i].dataOffset, full[i].fileSize)), size)
  {
    hide Packed, PayloadSpans;
    var rest := KernelSpansPrefix(full, i + 1);
    assert full[..i + 1][..i] == full[..i];
    PackedFront(before, KernelSpans(full[..i + 1]), rest, size);
  }

  lemma SegmentTableIsEmpty(bytes: seq<u8>, table: nat)
    requires table <= |bytes|
    ensures SegmentTable(bytes, table, []) && SegmentSpans([]) == []
  {}

  lemma SegmentTableGrows(bytes: seq<u8>, table: nat, segments: seq<ModuleSegment>, next: ModuleSegment)
    requires table + (|segments| + 1) * RECORD_SIZE <= |bytes| && SegmentTable(bytes, table, segments)
    requires DecodeModuleSegment(Record(bytes, table, |segments|)) == Some(next)
    ensures SegmentTable(bytes, table, segments + [next])
    ensures SegmentSpans(segments + [next]) == SegmentSpans(segments) + PayloadSpans(next.dataOffset, next.fileSize)
  {
    hide DecodeModuleSegment, Record, PayloadSpans;
    assert (segments + [next])[..|segments|] == segments;
  }

  /** What the next record of a table that fits decodes to, and that its payload fits. */
  lemma SegmentTableNext(bytes: seq<u8>, table: nat, full: seq<ModuleSegment>, i: nat, before: seq<Span>)
    requires i < |full| && SegmentTable(bytes, table, full) && Packed(before + SegmentSpans(full), |bytes|)
    ensures DecodeModuleSegment(Record(bytes, table, i)) == Some(full[i]) && full[..i + 1] == full[..i] + [full[i]]
    ensures Packed(before + (SegmentSpans(full[..i]) + PayloadSpans(full[i].dataOffset, full[i].fileSize)), |bytes|)
  {
    hide DecodeModuleSegment, Packed, PayloadSpans, SegmentSpans, Record;
    SegmentSpansNext(full, i, before, |bytes|);
  }

  lemma SegmentSpansNext(full: seq<ModuleSegment>, i: nat, before: seq<Span>, size: nat)
    requires i < |full| && Packed(before + SegmentSpans(full), size)
    ensures Packed(before + (SegmentSpans(full[..i]) + PayloadSpans(full[i].dataOffset, full[i].fileSize)), size)
  {
    hide Packed, PayloadSpans;
    var rest := SegmentSpansPrefix(full, i + 1);
    assert full[..i + 1][..i] == full[..i];
    PackedFront(before, SegmentSpans(full[..i + 1]), rest, size);
  }

  /** The kernel-table loop. `full` is any table it might find: if one fits, it is found. */
  method ParseKernelTable(bytes: seq<u8>, table: nat, count: nat, claims: ImageMap, ghost full: seq<KernelSegment>)
    returns (r: Option<seq<KernelSegment>>)
    requires table + count * RECORD_SIZE <= |bytes| && Packed(claims.spans, |bytes|)
    modifies claims
    ensures Packed(claims.spans, |bytes|)
    ensures r.Some? ==> |r.value| == count && KernelTable(bytes, table, r.value)
                        && claims.spans == old(claims.spans) + KernelSpans(r.value)
    ensures |full| == count && KernelTable(bytes, table, full) && Packed(old(claims.spans) + KernelSpans(full), |bytes|)
            ==> r == Some(full)
  {
    hide DecodeKernelSegment, KernelTable, KernelSpans, Packed, Record;
    ghost var before := claims.spans;
    ghost var fits := |full| == count && KernelTable(bytes, table, full) && Packed(before + KernelSpans(full), |bytes|);
    var segments := [];
    KernelTableIsEmpty(bytes, table);
    for i := 0 to count
      invariant |segments| == i && KernelTable(bytes, table, segments)
      invariant Packed(claims.spans, |bytes|) && claims.spans == before + KernelSpans(segments)
      invariant fits ==> segments == full[..i]
    {
      if fits { KernelTableNext(bytes, table, full, i, before); }
      var segment := DecodeKernelSegment(Record(bytes, table, i));
      if segment.None? { return None; }
      KernelTableGrows(bytes, table, segments, segment.value);
      if segment.value.fileSize != 0 {
        var span := SpanAt(segment.value.dataOffset, segment.value.fileSize);
        assert before + (KernelSpans(segments) + [span]) == claims.spans + [span];
        var ok := claims.Occupy(span, |bytes|);
        if !ok { return None; }
      }
      segments := segments + [segment.value];
    }
    assert fits ==> full[..count] == full;
    return Some(segments);
  }

  /** The loop over one module's segment table. */
  method ParseSegmentTable(bytes: seq<u8>, table: nat, count: nat, claims: ImageMap, ghost full: seq<ModuleSegment>)
    returns (r: Option<seq<ModuleSegment>>)
    requires table + count * RECORD_SIZE <= |bytes| && Packed(claims.spans, |bytes|)
    modifies claims
    ensures Packed(claims.spans, |bytes|)
    ensures r.Some? ==> |r.value| == count && SegmentTable(bytes, table, r.value)
                        && claims.spans == old(claims.spans) + SegmentSpans(r.value)
    ensures |full| == count && SegmentTable(bytes, table, full) && Packed(old(claims.spans) + SegmentSpans(full), |bytes|)
            ==> r == Some(full)
  {
    hide DecodeModuleSegment, SegmentTable, SegmentSpans, Packed, Record;
    ghost var before := claims.spans;
    ghost var fits := |full| == count && SegmentTable(bytes, table, full) && Packed(before + SegmentSpans(full), |bytes|);
    var segments := [];
    SegmentTableIsEmpty(bytes, table);
    for i := 0 to count
      invariant |segments| == i && SegmentTable(bytes, table, segments)
      invariant Packed(claims.spans, |bytes|) && claims.spans == before + SegmentSpans(segments)
      invariant fits ==> segments == full[..i]
    {
      if fits { SegmentTableNext(bytes, table, full, i, before); }
      var segment := DecodeModuleSegment(Record(bytes, table, i));
      if segment.None? { return None; }
      SegmentTableGrows(bytes, table, segments, segment.value);
      if segment.value.fileSize != 0 {
        var span := SpanAt(segment.value.dataOffset, segment.value.fileSize);
        assert before + (SegmentSpans(segments) + [span]) == claims.spans + [span];
        var ok := claims.Occupy(span, |bytes|);
        if !ok { return None; }
      }
      segments := segments + [segment.value];
    }
    assert fits ==> full[..count] == full;
    return Some(segments);
  }

  lemma ModuleSpansJoin(before: seq<Span>, m: ImageModule)
    ensures ((before + [NameSpan(m.record)]) + [TableSpan(m.record)]) + SegmentSpans(m.segments) == before + ModuleSpans(m)
  {
    hide SegmentSpans, NameSpan, TableSpan;
  }

  lemma ModulePrefixesFit(before: seq<Span>, m: ImageModule, size: nat)
    requires Packed(before + ModuleSpans(m), size)
    ensures Packed(before + [NameSpan(m.record)], size)
    ensures Packed((before + [NameSpan(m.record)]) + [TableSpan(m.record)], size)
    ensures Packed(((before + [NameSpan(m.record)]) + [TableSpan(m.record)]) + SegmentSpans(m.segments), size)
  {
    hide Packed, ModuleSpans, SegmentSpans, NameSpan, TableSpan;
    ModuleSpansJoin(before, m);
    PackedPrefix((before + [NameSpan(m.record)]) + [TableSpan(m.record)], SegmentSpans(m.segments), size);
    PackedPrefix(before + [NameSpan(m.record)], [TableSpan(m.record)], size);
  }

  /** One pass of the module loop. */
  method ParseModule(bytes: seq<u8>, record: seq<u8>, names: set<seq<u8>>, claims: ImageMap, ghost full: ImageModule)
    returns (r: Option<ImageModule>)
    requires Packed(claims.spans, |bytes|)
    modifies claims
    ensures Packed(claims.spans, |bytes|)
    ensures r.Some? ==> IsModule(bytes, record, r.value) && r.value.name !in names
                        && claims.spans == old(claims.spans) + ModuleSpans(r.value)
    ensures IsModule(bytes, record, full) && full.name !in names && Packed(old(claims.spans) + ModuleSpans(full), |bytes|)
            ==> r == Some(full)
  {
    hide DecodeModuleRecord, ModuleSpans, SegmentSpans, ValidUtf8, ValidModuleRecords, Packed, SegmentTable;
    ghost var before := claims.spans;
    ghost var fits := IsModule(bytes, record, full) && full.name !in names && Packed(before + ModuleSpans(full), |bytes|);
    var decoded := DecodeModuleRecord(record);
    if decoded.None? { return None; }
    var m := decoded.value;
    if fits { ModulePrefixesFit(before, full, |bytes|); }
    var named := claims.Occupy(NameSpan(m), |bytes|);
    if !named { return None; }
    PackedSpanFits(before + [NameSpan(m)], |before|, |bytes|);
    var tabled := claims.Occupy(TableSpan(m), |bytes|);
    if !tabled { return None; }
    PackedSpanFits((before + [NameSpan(m)]) + [TableSpan(m)], |before| + 1, |bytes|);
    var name := bytes[m.nameOffset..NameSpan(m).end];
    if !ValidUtf8(name) || name == [] || name in names { return None; }
    var segments := ParseSegmentTable(bytes, m.segmentTableOffset, m.segmentCount, claims, full.segments);
    if segments.None? { return None; }
    if !ValidModuleRecords(segments.value, m.entry) { return None; }
    ModuleSpansJoin(before, ImageModule(name, m, segments.value));
    return Some(ImageModule(name, m, segments.value));
  }

  lemma PackedSpanFits(spans: seq<Span>, i: nat, size: nat)
    requires Packed(spans, size) && i < |spans|
    ensures spans[i].end <= size
  {}

  lemma ModuleTableIsEmpty(bytes: seq<u8>, table: nat)
    requires table <= |bytes|
    ensures ModuleTable(bytes, table, []) && ModulesSpans([]) == []
  {}

  lemma ModuleTableGrows(bytes: seq<u8>, table: nat, modules: seq<ImageModule>, next: ImageModule, names: set<seq<u8>>)
    requires table + (|modules| + 1) * RECORD_SIZE <= |bytes| && ModuleTable(bytes, table, modules)
    requires IsModule(bytes, Record(bytes, table, |modules|), next)
    requires next.name !in names && names == NamesOf(modules)
    ensures ModuleTable(bytes, table, modules + [next]) && names + {next.name} == NamesOf(modules + [next])
    ensures ModulesSpans(modules + [next]) == ModulesSpans(modules) + ModuleSpans(next)
  {
    hide IsModule, ModuleSpans, Record;
    NamesGrow(modules, next);
    assert (modules + [next])[..|modules|] == modules;
    hide NamesOf, DistinctNames;
  }

  lemma NamesGrow(modules: seq<ImageModule>, next: ImageModule)
    ensures NamesOf(modules + [next]) == NamesOf(modules) + {next.name}
    ensures DistinctNames(modules) && next.name !in NamesOf(modules) ==> DistinctNames(modules + [next])
  {
    var longer := modules + [next];
    assert longer[|modules|] == next;
    forall m | m in modules ensures m in longer && m.name in NamesOf(modules) {}
    forall i | 0 <= i < |modules| ensures modules[i].name in NamesOf(modules) { assert modules[i] in modules; }
  }

  function NamesOf(modules: seq<ImageModule>): set<seq<u8>> { set m | m in modules :: m.name }

  /** What the next record of a module table that fits parses to. */
  lemma ModuleTableNext(bytes: seq<u8>, table: nat, full: seq<ImageModule>, i: nat, before: seq<Span>)
    requires i < |full| && ModuleTable(bytes, table, full) && Packed(before + ModulesSpans(full), |bytes|)
    ensures IsModule(bytes, Record(bytes, table, i), full[i]) && full[..i + 1] == full[..i] + [full[i]]
    ensures full[i].name !in NamesOf(full[..i])
    ensures Packed((before + ModulesSpans(full[..i])) + ModuleSpans(full[i]), |bytes|)
  {
    hide IsModule, Packed, ModuleSpans, ModulesSpans, Record;
    ModulesSpansNext(full, i, before, |bytes|);
    NextNameIsNew(full, i);
    hide NamesOf, DistinctNames;
  }

  lemma NextNameIsNew(full: seq<ImageModule>, i: nat)
    requires i < |full| && DistinctNames(full)
    ensures full[i].name !in NamesOf(full[..i])
  {
    forall m | m in full[..i] ensures m.name != full[i].name {
      var k :| 0 <= k < i && full[k] == m;
    }
  }

  lemma ModulesSpansNext(full: seq<ImageModule>, i: nat, before: seq<Span>, size: nat)
    requires i < |full| && Packed(before + ModulesSpans(full), size)
    ensures Packed((before + ModulesSpans(full[..i])) + ModuleSpans(full[i]), size)
  {
    hide Packed, ModuleSpans;
    var rest := ModulesSpansPrefix(full, i + 1);
    OneModuleMore(full, i);
    hide ModulesSpans;
    Regroup(before, ModulesSpans(full[..i]), ModuleSpans(full[i]));
    PackedFront(before, ModulesSpans(full[..i]) + ModuleSpans(full[i]), rest, size);
  }

  lemma OneModuleMore(full: seq<ImageModule>, i: nat)
    requires i < |full|
    ensures ModulesSpans(full[..i + 1]) == ModulesSpans(full[..i]) + ModuleSpans(full[i])
  {
    hide ModuleSpans;
    assert full[..i + 1][..i] == full[..i];
  }

  lemma Regroup(a: seq<Span>, b: seq<Span>, c: seq<Span>)
    ensures a + (b + c) == (a + b) + c
  {}

  /** The module-table loop; the names seen so far must not repeat. */
  method ParseModuleTable(bytes: seq<u8>, table: nat, count: nat, claims: ImageMap, ghost full: seq<ImageModule>)
    returns (r: Option<seq<ImageModule>>)
    requires table + count * RECORD_SIZE <= |bytes| && Packed(claims.spans, |bytes|)
    modifies claims
    ensures Packed(claims.spans, |bytes|)
    ensures r.Some? ==> |r.value| == count && ModuleTable(bytes, table, r.value)
                        && claims.spans == old(claims.spans) + ModulesSpans(r.value)
    ensures |full| == count && ModuleTable(bytes, table, full) && Packed(old(claims.spans) + ModulesSpans(full), |bytes|)
            ==> r == Some(full)
  {
    hide IsModule, ModuleTable, ModulesSpans, ModuleSpans, Packed, Record;
    ghost var before := claims.spans;
    ghost var fits := |full| == count && ModuleTable(bytes, table, full) && Packed(before + ModulesSpans(full), |bytes|);
    var modules, names: set<seq<u8>> := [], {};
    ModuleTableIsEmpty(bytes, table);
    for i := 0 to count
      invariant |modules| == i && ModuleTable(bytes, table, modules) && names == NamesOf(modules)
      invariant Packed(claims.spans, |bytes|) && claims.spans == before + ModulesSpans(modules)
      invariant fits ==> modules == full[..i]
    {
      ghost var expected := if fits then full[i] else ImageModule([], ModuleRecord(0, 0, 0, 0, 0), []);
      if fits { ModuleTableNext(bytes, table, full, i, before); }
      var parsed := ParseModule(bytes, Record(bytes, table, i), names, claims, expected);
      if parsed.None? { return None; }
      ModuleTableGrows(bytes, table, modules, parsed.value, names);
      names := names + {parsed.value.name};
      modules := modules + [parsed.value];
    }
    assert fits ==> full[..count] == full;
    return Some(modules);
  }

  /** `SystemImage::parse`: accepts exactly the images, and returns the image. */
  method Parse(bytes: seq<u8>) returns (r: Option<SystemImage>)
    ensures r.Some? ==> IsImage(bytes, r.value)
    ensures r.None? ==> forall img :: !IsImage(bytes, img)
  {
    ghost var w: SystemImage :| (exists img :: IsImage(bytes, img)) ==> IsImage(bytes, w);
    r := ParseAgainst(bytes, w);
  }

  method ParseAgainst(bytes: seq<u8>, ghost w: SystemImage) returns (r: Option<SystemImage>)
    ensures r.Some? ==> IsImage(bytes, r.value)
    ensures IsImage(bytes, w) ==> r == Some(w)
  {
    hide DecodeHeader, ValidKernelRecords, KernelSpans, ModulesSpans, ModuleTable, KernelTable, Packed;
    ghost var fits := IsImage(bytes, w);
    var decoded := DecodeHeader(bytes);
    if decoded.None? { return None; }
    var header := decoded.value;
    if |bytes| != header.imageSize { return None; }
    HeaderIsValid(bytes, header);
    var claims := new ImageMap();
    HeaderSpanIsPacked(|bytes|);
    var tables := TableSpans(header);
    if fits { ImagePrefixesFit(bytes, w); }
    assert [Span(0, HEADER_SIZE)] + [tables[1]] == tables[..2] && tables[..2] + [tables[2]] == tables;
    var ok := claims.Occupy(tables[1], |bytes|);
    if !ok { return None; }
    ok := claims.Occupy(tables[2], |bytes|);
    if !ok { return None; }
    var kernel := ParseKernelTable(bytes, header.kernelTableOffset, header.kernelCount, claims, w.kernelSegments);
    if kernel.None? { return None; }
    if !ValidKernelRecords(kernel.value, header.kernelEntry) { return None; }
    var modules := ParseModuleTable(bytes, header.moduleTableOffset, header.moduleCount, claims, w.modules);
    if modules.None? { return None; }
    return Some(SystemImage(bytes, header, kernel.value, modules.value));
  }

  lemma ImagePrefixesFit(bytes: seq<u8>, w: SystemImage)
    requires IsImage(bytes, w)
    ensures var tables := TableSpans(w.header);
      && Packed(tables[..2], |bytes|) && Packed(tables, |bytes|)
      && Packed(tables + KernelSpans(w.kernelSegments), |bytes|)
  {
    hide Packed, KernelSpans, ModulesSpans, KernelTable, ModuleTable, DecodeHeader, ValidKernelRecords;
    var tables := TableSpans(w.header);
    PackedPrefix(tables + KernelSpans(w.kernelSegments), ModulesSpans(w.modules), |bytes|);
    PackedPrefix(tables, KernelSpans(w.kernelSegments), |bytes|);
    assert tables == tables[..2] + [tables[2]];
    PackedPrefix(tables[..2], [tables[2]], |bytes|);
  }

  lemma HeaderIsValid(bytes: seq<u8>, h: ImageHeader)
    requires DecodeHeader(bytes) == Some(h)
    ensures h.Valid() && |bytes| >= HEADER_SIZE
  {}

  lemma HeaderSpanIsPacked(size: nat)
    requires HEADER_SIZE <= size
    ensures Packed([Span(0, HEADER_SIZE)], size)
  {}
}
