/** What it means that the parser accepted an image: each of its bytes has at most one owner
    (crates/minemu-image/src/format.rs, `parse` and `ImageMap`). */
module ImageSoundness {
  import opened Platform
  import opened Records
  import opened Validation
  import opened ImageFormat

  /** The parts of an image that own bytes. */
  datatype Part =
    | HeaderPart | KernelTablePart | ModuleTablePart
    | KernelPayload(i: nat)
    | NamePart(m: nat) | SegmentTablePart(m: nat) | ModulePayload(m: nat, j: nat)

  predicate Present(img: SystemImage, part: Part) {
    match part
    case KernelPayload(i) => i < |img.kernelSegments| && img.kernelSegments[i].fileSize != 0
    case NamePart(m) => m < |img.modules|
    case SegmentTablePart(m) => m < |img.modules|
    case ModulePayload(m, j) => m < |img.modules| && j < |img.modules[m].segments| && img.modules[m].segments[j].fileSize != 0
    case _ => true
  }

  /** The bytes a part owns, by the offsets its record or the header gives. */
  function Extent(img: SystemImage, part: Part): Span
    requires Present(img, part)
  {
    match part
    case HeaderPart => Span(0, HEADER_SIZE)
    case KernelTablePart => SpanAt(img.header.kernelTableOffset, img.header.kernelCount * RECORD_SIZE)
    case ModuleTablePart => SpanAt(img.header.moduleTableOffset, img.header.moduleCount * RECORD_SIZE)
    case KernelPayload(i) => SpanAt(img.kernelSegments[i].dataOffset, img.kernelSegments[i].fileSize)
    case NamePart(m) => NameSpan(img.modules[m].record)
    case SegmentTablePart(m) => TableSpan(img.modules[m].record)
    case ModulePayload(m, j) => SpanAt(img.modules[m].segments[j].dataOffset, img.modules[m].segments[j].fileSize)
  }

  // ---- Parts are claimed in groups: the tables, the kernel payloads, then each module ----

  function Group(part: Part): nat {
    match part
    case KernelPayload(_) => 1
    case NamePart(m) => 2 + m
    case SegmentTablePart(m) => 2 + m
    case ModulePayload(m, _) => 2 + m
    case _ => 0
  }

  function GroupStart(img: SystemImage, g: nat): nat
    requires g <= 2 + |img.modules|
  {
    if g == 0 then 0
    else if g == 1 then 3
    else 3 + |KernelSpans(img.kernelSegments)| + |ModulesSpans(img.modules[..g - 2])|
  }

  /** A part's rank within its group. */
  function Rank(img: SystemImage, part: Part): nat
    requires Present(img, part)
  {
    match part
    case HeaderPart => 0
    case KernelTablePart => 1
    case ModuleTablePart => 2
    case KernelPayload(i) => |KernelSpans(img.kernelSegments[..i])|
    case NamePart(m) => 0
    case SegmentTablePart(m) => 1
    case ModulePayload(m, j) => 2 + |SegmentSpans(img.modules[m].segments[..j])|
  }

  lemma KernelPayloadRank(segments: seq<KernelSegment>, i: nat, j: nat)
    requires i < j <= |segments| && segments[i].fileSize != 0
    ensures |KernelSpans(segments[..i])| < |KernelSpans(segments[..j])|
    ensures KernelSpans(segments[..j])[|KernelSpans(segments[..i])|] == SpanAt(segments[i].dataOffset, segments[i].fileSize)
  {
    var rest := KernelSpansPrefix(segments[..j], i + 1);
    assert segments[..j][..i + 1] == segments[..i + 1] && segments[..i + 1][..i] == segments[..i];
  }

  lemma ModulePayloadRank(segments: seq<ModuleSegment>, i: nat, j: nat)
    requires i < j <= |segments| && segments[i].fileSize != 0
    ensures |SegmentSpans(segments[..i])| < |SegmentSpans(segments[..j])|
    ensures SegmentSpans(segments[..j])[|SegmentSpans(segments[..i])|] == SpanAt(segments[i].dataOffset, segments[i].fileSize)
  {
    var rest := SegmentSpansPrefix(segments[..j], i + 1);
    assert segments[..j][..i + 1] == segments[..i + 1] && segments[..i + 1][..i] == segments[..i];
  }

  lemma ModuleSpansRank(modules: seq<ImageModule>, m: nat, n: nat)
    requires m < n <= |modules|
    ensures |ModulesSpans(modules[..m])| + |ModuleSpans(modules[m])| <= |ModulesSpans(modules[..n])|
    ensures forall k | 0 <= k < |ModuleSpans(modules[m])| ::
              ModulesSpans(modules[..n])[|ModulesSpans(modules[..m])| + k] == ModuleSpans(modules[m])[k]
  {
    hide ModuleSpans;
    var rest := ModulesSpansPrefix(modules[..n], m + 1);
    assert modules[..n][..m + 1] == modules[..m + 1] && modules[..m + 1][..m] == modules[..m];
  }

  /** A part's span is among those of its group, at its rank. */
  lemma ModulePartIsClaimed(img: SystemImage, part: Part)
    requires Present(img, part) && Group(part) >= 2
    ensures Rank(img, part) < |ModuleSpans(img.modules[Group(part) - 2])|
    ensures ModuleSpans(img.modules[Group(part) - 2])[Rank(img, part)] == Extent(img, part)
  {
    var segments := img.modules[Group(part) - 2].segments;
    if part.ModulePayload? {
      ModulePayloadRank(segments, part.j, |segments|);
      assert segments[..|segments|] == segments;
    }
  }

  /** Every part is claimed, at a position inside its group. */
  lemma PartIsClaimed(img: SystemImage, part: Part)
    requires Present(img, part)
    ensures Group(part) < 2 + |img.modules|
    ensures GroupStart(img, Group(part)) + Rank(img, part) < GroupStart(img, Group(part) + 1) <= |AllSpans(img)|
    ensures AllSpans(img)[GroupStart(img, Group(part)) + Rank(img, part)] == Extent(img, part)
  {
    hide KernelSpans, ModulesSpans, ModuleSpans, SegmentSpans;
    assert img.modules[..|img.modules|] == img.modules;
    assert img.kernelSegments[..|img.kernelSegments|] == img.kernelSegments;
    if part.KernelPayload? {
      KernelPayloadRank(img.kernelSegments, part.i, |img.kernelSegments|);
      NoModules(img);
    } else if Group(part) >= 2 {
      var m := Group(part) - 2;
      ModulePartIsClaimed(img, part);
      ModuleSpansRank(img.modules, m, |img.modules|);
      ModuleSpansRank(img.modules, m, m + 1);
      GroupsInOrder(img, m + 3, 2 + |img.modules|);
    }
  }

  lemma NoModules(img: SystemImage)
    ensures ModulesSpans(img.modules[..0]) == []
  {}

  lemma GroupsInOrder(img: SystemImage, g: nat, h: nat)
    requires g <= h <= 2 + |img.modules|
    ensures GroupStart(img, g) <= GroupStart(img, h)
  {
    if 2 <= g < h {
      ModuleSpansRank(img.modules, g - 2, h - 2);
    }
  }

  /** Different parts are claimed at different positions. */
  lemma PartsAreClaimedApart(img: SystemImage, a: Part, b: Part)
    requires Present(img, a) && Present(img, b) && a != b
    ensures GroupStart(img, Group(a)) + Rank(img, a) != GroupStart(img, Group(b)) + Rank(img, b)
  {
    hide KernelSpans, ModulesSpans, ModuleSpans, SegmentSpans, GroupStart, AllSpans, Extent;
    PartIsClaimed(img, a);
    PartIsClaimed(img, b);
    if Group(a) < Group(b) {
      GroupsInOrder(img, Group(a) + 1, Group(b));
    } else if Group(b) < Group(a) {
      GroupsInOrder(img, Group(b) + 1, Group(a));
    } else {
      RanksDiffer(img, a, b);
    }
  }

  lemma RanksDiffer(img: SystemImage, a: Part, b: Part)
    requires Present(img, a) && Present(img, b) && a != b && Group(a) == Group(b)
    ensures Rank(img, a) != Rank(img, b)
  {
    hide KernelSpans, SegmentSpans;
    if a.KernelPayload? {
      if a.i < b.i { KernelPayloadRank(img.kernelSegments, a.i, b.i); }
      else { KernelPayloadRank(img.kernelSegments, b.i, a.i); }
    } else if a.ModulePayload? && b.ModulePayload? {
      if a.j < b.j { ModulePayloadRank(img.modules[a.m].segments, a.j, b.j); }
      else { ModulePayloadRank(img.modules[a.m].segments, b.j, a.j); }
    }
  }

  // ---- Exactly which layouts are accepted ----

  lemma {:induction false} KernelSpanHasPayload(segments: seq<KernelSegment>, k: nat) returns (i: nat)
    requires k < |KernelSpans(segments)|
    ensures i < |segments| && segments[i].fileSize != 0 && |KernelSpans(segments[..i])| == k
    decreases |segments|
  {
    var front := segments[..|segments| - 1];
    if k < |KernelSpans(front)| {
      i := KernelSpanHasPayload(front, k);
      assert front[..i] == segments[..i];
    } else {
      i := |segments| - 1;
    }
  }

  lemma {:induction false} SegmentSpanHasPayload(segments: seq<ModuleSegment>, k: nat) returns (j: nat)
    requires k < |SegmentSpans(segments)|
    ensures j < |segments| && segments[j].fileSize != 0 && |SegmentSpans(segments[..j])| == k
    decreases |segments|
  {
    var front := segments[..|segments| - 1];
    if k < |SegmentSpans(front)| {
      j := SegmentSpanHasPayload(front, k);
      assert front[..j] == segments[..j];
    } else {
      j := |segments| - 1;
    }
  }

  lemma {:induction false} ModuleSpanHasModule(modules: seq<ImageModule>, k: nat) returns (m: nat)
    requires k < |ModulesSpans(modules)|
    ensures m < |modules|
    ensures |ModulesSpans(modules[..m])| <= k < |ModulesSpans(modules[..m])| + |ModuleSpans(modules[m])|
    decreases |modules|
  {
    hide ModuleSpans;
    var front := modules[..|modules| - 1];
    if k < |ModulesSpans(front)| {
      m := ModuleSpanHasModule(front, k);
      assert front[..m] == modules[..m];
    } else {
      m := |modules| - 1;
    }
  }

  /** Every claimed span is some part's. */
  lemma SpanHasPart(img: SystemImage, k: nat) returns (part: Part)
    requires k < |AllSpans(img)|
    ensures Present(img, part) && Group(part) < 2 + |img.modules|
    ensures GroupStart(img, Group(part)) + Rank(img, part) == k && AllSpans(img)[k] == Extent(img, part)
  {
    hide KernelSpans, ModulesSpans, SegmentSpans;
    var kernels := |KernelSpans(img.kernelSegments)|;
    if k < 3 {
      part := if k == 0 then HeaderPart else if k == 1 then KernelTablePart else ModuleTablePart;
    } else if k < 3 + kernels {
      var i := KernelSpanHasPayload(img.kernelSegments, k - 3);
      part := KernelPayload(i);
    } else {
      var m := ModuleSpanHasModule(img.modules, k - 3 - kernels);
      var r := k - 3 - kernels - |ModulesSpans(img.modules[..m])|;
      if r < 2 {
        part := if r == 0 then NamePart(m) else SegmentTablePart(m);
      } else {
        var j := SegmentSpanHasPayload(img.modules[m].segments, r - 2);
        part := ModulePayload(m, j);
      }
    }
    hide AllSpans, Extent;
    PartIsClaimed(img, part);
  }

  /** Every range fits, as documented for tables and for occupied ranges. */
  ghost predicate PartsFit(img: SystemImage, size: nat) {
    forall a | Present(img, a) :: Extent(img, a).end <= size
  }

  /** Occupied ranges do not overlap, as documented: no byte belongs to two parts. */
  ghost predicate BytesHaveOneOwner(img: SystemImage) {
    forall a, x: nat | Present(img, a) && Extent(img, a).Holds(x) ::
      forall b | Present(img, b) && b != a :: !Extent(img, b).Holds(x)
  }

  /** The code's further demand: a part without bytes is not strictly inside another. */
  ghost predicate EmptyPartsApart(img: SystemImage) {
    forall a | Present(img, a) && Extent(img, a).start == Extent(img, a).end :: ClearOf(img, a)
  }

  /** `a` starts strictly inside no other part. */
  ghost predicate ClearOf(img: SystemImage, a: Part)
    requires Present(img, a)
  {
    forall b | Present(img, b) && b != a :: !(Extent(img, b).start < Extent(img, a).start < Extent(img, b).end)
  }

  lemma OverlapExactly(s: Span, t: Span)
    requires s.start <= s.end && t.start <= t.end
    ensures s.Overlaps(t) <==>
      || (exists x: nat :: s.Holds(x) && t.Holds(x))
      || (s.start == s.end && t.start < s.start < t.end)
      || (t.start == t.end && s.start < t.start < s.end)
  {
    if s.Overlaps(t) && s.start != s.end && t.start != t.end {
      var x := if s.start < t.start then t.start else s.start;
      assert s.Holds(x) && t.Holds(x);
    }
  }

  lemma ExtentIsOrdered(img: SystemImage, part: Part)
    requires Present(img, part)
    ensures Extent(img, part).start <= Extent(img, part).end
  {}

  lemma PackedPartFits(img: SystemImage, size: nat, a: Part)
    requires Packed(AllSpans(img), size) && Present(img, a)
    ensures Extent(img, a).end <= size
  {
    hide AllSpans, GroupStart, Rank, Group, Present, Extent;
    PartIsClaimed(img, a);
  }

  lemma PackedPartsApart(img: SystemImage, size: nat, a: Part, b: Part)
    requires Packed(AllSpans(img), size) && Present(img, a) && Present(img, b) && a != b
    ensures !Extent(img, a).Overlaps(Extent(img, b))
  {
    hide AllSpans, GroupStart, Rank, Group, Present, Extent;
    PartIsClaimed(img, a);
    PartIsClaimed(img, b);
    PartsAreClaimedApart(img, a, b);
    var i, j := GroupStart(img, Group(a)) + Rank(img, a), GroupStart(img, Group(b)) + Rank(img, b);
    assert !AllSpans(img)[if i < j then i else j].Overlaps(AllSpans(img)[if i < j then j else i]);
  }

  /** The claims succeed exactly on the documented layouts whose empty parts keep apart. */
  lemma AcceptedLayouts(img: SystemImage, size: nat)
    ensures Packed(AllSpans(img), size) <==> PartsFit(img, size) && BytesHaveOneOwner(img) && EmptyPartsApart(img)
  {
    if Packed(AllSpans(img), size) {
      LayoutIsDocumented(img, size);
    } else if PartsFit(img, size) && BytesHaveOneOwner(img) && EmptyPartsApart(img) {
      DocumentedLayoutIsPacked(img, size);
    }
  }

  lemma LayoutIsDocumented(img: SystemImage, size: nat)
    requires Packed(AllSpans(img), size)
    ensures PartsFit(img, size) && BytesHaveOneOwner(img) && EmptyPartsApart(img)
  {
    hide AllSpans, Packed, Present, Extent;
    forall a, b | Present(img, a) && Present(img, b) && b != a
      ensures !Extent(img, a).Overlaps(Extent(img, b))
    {
      PackedPartsApart(img, size, a, b);
    }
    forall a | Present(img, a) ensures Extent(img, a).start <= Extent(img, a).end <= size {
      ExtentIsOrdered(img, a);
      PackedPartFits(img, size, a);
    }
  }

  lemma NoSharedByte(img: SystemImage, a: Part, b: Part)
    requires BytesHaveOneOwner(img) && Present(img, a) && Present(img, b) && a != b
    ensures forall x: nat :: !(Extent(img, a).Holds(x) && Extent(img, b).Holds(x))
  {
    hide Present, Extent, Span.Holds;
  }

  lemma EmptyPartApart(img: SystemImage, a: Part, b: Part)
    requires EmptyPartsApart(img) && Present(img, a) && Present(img, b) && a != b && Extent(img, a).start == Extent(img, a).end
    ensures !(Extent(img, b).start < Extent(img, a).start < Extent(img, b).end)
  {
    hide Present, Extent;
    assert ClearOf(img, a);
  }

  lemma DocumentedPartsApart(img: SystemImage, a: Part, b: Part)
    requires BytesHaveOneOwner(img) && EmptyPartsApart(img)
    requires Present(img, a) && Present(img, b) && a != b
    ensures !Extent(img, a).Overlaps(Extent(img, b))
  {
    ExtentIsOrdered(img, a);
    ExtentIsOrdered(img, b);
    hide Present, Extent, BytesHaveOneOwner, EmptyPartsApart, Span.Overlaps;
    NoSharedByte(img, a, b);
    var s, t := Extent(img, a), Extent(img, b);
    if s.start == s.end { EmptyPartApart(img, a, b); }
    if t.start == t.end { EmptyPartApart(img, b, a); }
    OverlapExactly(s, t);
  }

  lemma DocumentedLayoutIsPacked(img: SystemImage, size: nat)
    requires PartsFit(img, size) && BytesHaveOneOwner(img) && EmptyPartsApart(img)
    ensures Packed(AllSpans(img), size)
  {
    hide AllSpans, GroupStart, Rank, Group, Present, Extent, BytesHaveOneOwner, EmptyPartsApart;
    forall i | 0 <= i < |AllSpans(img)| ensures AllSpans(img)[i].end <= size {
      var a := SpanHasPart(img, i);
    }
    forall i, j | 0 <= i < j < |AllSpans(img)| ensures !AllSpans(img)[i].Overlaps(AllSpans(img)[j]) {
      var a := SpanHasPart(img, i);
      var b := SpanHasPart(img, j);
      DocumentedPartsApart(img, a, b);
    }
  }

  // ---- Where the code departs from the documented layouts ----

  /** Of the parts of a decoded image only the module table can be empty. */
  lemma OnlyModuleTableIsEmpty(bytes: seq<u8>, img: SystemImage, a: Part)
    requires Decodes(bytes, img) && Present(img, a)
    ensures Extent(img, a).start == Extent(img, a).end <==> a == ModuleTablePart && img.header.moduleCount == 0
  {
    hide DecodeHeader, KernelTable, KernelPlaced, KernelRangesDisjoint, IsKernelEntry, ValidModuleRecords, ValidUtf8, Record,
         DecodeModuleRecord, SegmentTable, DistinctNames;
    if a.NamePart? || a.SegmentTablePart? {
      var m := img.modules[a.m];
      assert IsModule(bytes, Record(bytes, img.header.moduleTableOffset, a.m), m);
      SomeSegment(m.segments, m.record.entry);
    }
  }

  lemma SomeSegment(segments: seq<ModuleSegment>, entry: u32)
    requires ValidModuleRecords(segments, entry)
    ensures segments != []
  {}

  /** The parser accepts exactly what decodes with a documented layout, except that an empty
      module table must not start strictly inside another part. */
  lemma ImagesExactly(bytes: seq<u8>, img: SystemImage)
    ensures IsImage(bytes, img) <==>
      && Decodes(bytes, img) && PartsFit(img, |bytes|) && BytesHaveOneOwner(img)
      && (img.header.moduleCount == 0 ==> ClearOf(img, ModuleTablePart))
  {
    hide Decodes, AllSpans, Packed, PartsFit, BytesHaveOneOwner, Extent, ClearOf;
    AcceptedLayouts(img, |bytes|);
    if Decodes(bytes, img) {
      forall a | Present(img, a)
        ensures Extent(img, a).start == Extent(img, a).end <==> a == ModuleTablePart && img.header.moduleCount == 0
      {
        OnlyModuleTableIsEmpty(bytes, img, a);
      }
    }
  }

  // ---- Parser soundness ----

  /** In an accepted image every part lies inside the image and no byte is in two of them. */
  lemma EveryByteHasOneOwner(img: SystemImage)
    requires IsImage(img.bytes, img)
    ensures PartsFit(img, |img.bytes|) && BytesHaveOneOwner(img)
  {
    hide Decodes, AllSpans, PartsFit, BytesHaveOneOwner;
    AcceptedLayouts(img, |img.bytes|);
  }

  /** No address of a loaded kernel segment is the boot ROM's, or any other segment's. */
  lemma EveryAddressHasOneSegment(img: SystemImage, i: nat, a: u32)
    requires IsImage(img.bytes, img) && i < |img.kernelSegments|
    ensures PhysicalExtent(img.kernelSegments[i]).Contains(a) ==>
              !BOOT_WORKSPACE.Contains(a)
              && forall j | 0 <= j < |img.kernelSegments| && j != i :: !PhysicalExtent(img.kernelSegments[j]).Contains(a)
    ensures VirtualExtent(img.kernelSegments[i]).Contains(a) ==>
              forall j | 0 <= j < |img.kernelSegments| && j != i :: !VirtualExtent(img.kernelSegments[j]).Contains(a)
  {
    hide DecodeHeader, KernelTable, ModuleTable, Packed, AllSpans;
    assert KernelPlaced(img.kernelSegments[i]);
    forall j | 0 <= j < |img.kernelSegments| && j != i
      ensures !PhysicalExtent(img.kernelSegments[i]).Overlaps(PhysicalExtent(img.kernelSegments[j]))
      ensures !VirtualExtent(img.kernelSegments[i]).Overlaps(VirtualExtent(img.kernelSegments[j]))
    {
      var low, high := if i < j then i else j, if i < j then j else i;
      assert !PhysicalExtent(img.kernelSegments[low]).Overlaps(PhysicalExtent(img.kernelSegments[high]))
          && !VirtualExtent(img.kernelSegments[low]).Overlaps(VirtualExtent(img.kernelSegments[high]));
    }
  }
}
