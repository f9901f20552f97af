/** The image builder after ELF parsing: segments become records, records are sorted and
    checked, and the result is packed (crates/minemu-image/src/lib.rs). */
module Builder {
  import opened Platform
  import opened Records
  import opened Validation
  import opened ImageFormat
  import opened ImagePack
  import opened ImageRoundTrip
  import opened ImageBuild
  import opened Sorting

  /** A loadable segment, its entry and its file's name, as the ELF parser hands them over. */
  datatype ElfSegment = ElfSegment(address: u32, bytes: seq<u8>, memorySize: u32, flags: u32)
  datatype Elf = Elf(entry: u32, segments: seq<ElfSegment>)
  datatype NamedElf = NamedElf(name: seq<u8>, elf: Elf)

  // ---- From segments to records ----

  /** Where a kernel segment is loaded: a RAM address is kept, a direct-map one is translated. */
  function LoadAddress(address: u32): Option<u32> {
    if MemRegion.Ram.Extent().Contains(address) then Some(address) else DirectMapPhysical(address)
  }

  function KernelInputOf(s: ElfSegment): Option<KernelInput> {
    var physical := LoadAddress(s.address);
    if physical.None? || |s.bytes| >= 0x1_0000_0000 then None
    else
      var record := KernelSegment(0, physical.value, s.address, |s.bytes|, s.memorySize, s.flags);
      if record.Valid() then Some(KernelInput(record, s.bytes)) else None
  }

  function SegmentInputOf(s: ElfSegment): Option<SegmentInput> {
    if |s.bytes| >= 0x1_0000_0000 then None
    else
      var record := ModuleSegment(0, s.address, |s.bytes|, s.memorySize, s.flags);
      if record.Valid() then Some(SegmentInput(record, s.bytes)) else None
  }

  // ---- The sort orders ----

  predicate ByKernelAddress(a: KernelInput, b: KernelInput) { a.record.virtualAddress <= b.record.virtualAddress }

  predicate BySegmentAddress(a: SegmentInput, b: SegmentInput) { a.record.virtualAddress <= b.record.virtualAddress }

  /** Lexicographic order of byte strings. */
  predicate NameLe(a: seq<u8>, b: seq<u8>) {
    a == [] || (b != [] && (a[0] < b[0] || (a[0] == b[0] && NameLe(a[1..], b[1..]))))
  }

  predicate ByName(a: ModuleInput, b: ModuleInput) { NameLe(a.name, b.name) }

  lemma {:induction false} NameLeIsTotal(a: seq<u8>, b: seq<u8>)
    ensures NameLe(a, b) || NameLe(b, a)
    ensures NameLe(a, b) && NameLe(b, a) ==> a == b
  {
    if a != [] && b != [] && a[0] == b[0] {
      NameLeIsTotal(a[1..], b[1..]);
      assert a == [a[0]] + a[1..] && b == [b[0]] + b[1..];
    }
  }

  lemma {:induction false} NameLeIsTransitive(a: seq<u8>, b: seq<u8>, c: seq<u8>)
    requires NameLe(a, b) && NameLe(b, c)
    ensures NameLe(a, c)
  {
    if a != [] && a[0] == b[0] == c[0] {
      NameLeIsTransitive(a[1..], b[1..], c[1..]);
    }
  }

  lemma ByNameIsTotal()
    ensures Sorting.Total(ByName)
  {
    forall a: ModuleInput, b: ModuleInput ensures ByName(a, b) || ByName(b, a) { NameLeIsTotal(a.name, b.name); }
    forall a: ModuleInput, b: ModuleInput, c: ModuleInput | ByName(a, b) && ByName(b, c) ensures ByName(a, c) {
      NameLeIsTransitive(a.name, b.name, c.name);
    }
  }

  // ---- What the builder should do ----

  function ModuleInputOf(n: NamedElf): Option<ModuleInput> {
    var segments := Collect(SegmentInputOf, n.elf.segments);
    if n.name == [] || segments.None? then None
    else
      var m := ModuleInput(n.name, n.elf.entry, Sort(segments.value, BySegmentAddress));
      if ValidModuleRecords(SegmentInputs(m), m.entry) then Some(m) else None
  }

  /** The packer's input: every record converted, then sorted. */
  function Prepared(kernel: Elf, modules: seq<NamedElf>): Option<Input> {
    var k, ms := Collect(KernelInputOf, kernel.segments), Collect(ModuleInputOf, modules);
    if k.None? || ms.None? then None
    else Some(Input(kernel.entry, Sort(k.value, ByKernelAddress), Sort(ms.value, ByName)))
  }

  /** The image of a kernel and its modules, if they make one. */
  ghost function Packaged(kernel: Elf, modules: seq<NamedElf>): Option<SystemImage> {
    var p := Prepared(kernel, modules);
    if p.Some? && Good(p.value) then Some(Expected(p.value)) else None
  }

  // ---- The builder ----

  method ConvertKernel(segments: seq<ElfSegment>) returns (r: Option<seq<KernelInput>>)
    ensures r == Collect(KernelInputOf, segments)
  {
    var packed: seq<KernelInput> := [];
    for i := 0 to |segments|
      invariant |packed| == i && forall k | 0 <= k < i :: KernelInputOf(segments[k]) == Some(packed[k])
    {
      var s := segments[i];
      var physical := LoadAddress(s.address);
      if physical.None? || |s.bytes| >= 0x1_0000_0000 { return None; }
      var record := KernelSegment(0, physical.value, s.address, |s.bytes|, s.memorySize, s.flags);
      if !record.Valid() { return None; }
      packed := packed + [KernelInput(record, s.bytes)];
    }
    assert Collect(KernelInputOf, segments).value == packed;
    return Some(packed);
  }

  method ConvertSegments(segments: seq<ElfSegment>) returns (r: Option<seq<SegmentInput>>)
    ensures r == Collect(SegmentInputOf, segments)
  {
    var records: seq<SegmentInput> := [];
    for i := 0 to |segments|
      invariant |records| == i && forall k | 0 <= k < i :: SegmentInputOf(segments[k]) == Some(records[k])
    {
      var s := segments[i];
      if |s.bytes| >= 0x1_0000_0000 { return None; }
      var record := ModuleSegment(0, s.address, |s.bytes|, s.memorySize, s.flags);
      if !record.Valid() { return None; }
      records := records + [SegmentInput(record, s.bytes)];
    }
    assert Collect(SegmentInputOf, segments).value == records;
    return Some(records);
  }

  method ConvertModules(modules: seq<NamedElf>) returns (r: Option<seq<ModuleInput>>)
    ensures r == Collect(ModuleInputOf, modules)
  {
    hide ValidModuleRecords, Sort, SegmentInputOf, SegmentInputs, Collect;
    var packed: seq<ModuleInput> := [];
    for i := 0 to |modules|
      invariant |packed| == i && forall k | 0 <= k < i :: ModuleInputOf(modules[k]) == Some(packed[k])
    {
      var n := modules[i];
      if n.name == [] { return None; }
      var records := ConvertSegments(n.elf.segments);
      if records.None? { return None; }
      var m := ModuleInput(n.name, n.elf.entry, Sort(records.value, BySegmentAddress));
      if !ValidModuleRecords(SegmentInputs(m), m.entry) { return None; }
      packed := packed + [m];
    }
    assert Collect(ModuleInputOf, modules).value == packed;
    return Some(packed);
  }

  predicate HasAdjacentDuplicate(modules: seq<ModuleInput>) {
    exists i | 0 <= i < |modules| - 1 :: modules[i].name == modules[i + 1].name
  }

  /** Comparing neighbours is enough once the names are sorted. */
  lemma AdjacentDuplicatesSuffice(modules: seq<ModuleInput>)
    requires Sorted(modules, ByName)
    ensures HasAdjacentDuplicate(modules) <==> !NamesDistinct(modules)
  {
    forall i, j | 0 <= i < j < |modules| && modules[i].name == modules[j].name
      ensures HasAdjacentDuplicate(modules)
    {
      assert ByName(modules[i], modules[i + 1]);
      assert i + 1 == j || ByName(modules[i + 1], modules[j]);
      NameLeIsTotal(modules[i].name, modules[i + 1].name);
      assert modules[i].name == modules[i + 1].name;
    }
  }

  /** Everything in a sorted conversion comes from some element. */
  lemma SortedComesFrom<A, B>(f: A -> Option<B>, s: seq<A>, le: (B, B) -> bool, i: nat) returns (k: nat)
    requires Collect(f, s).Some? && i < |s|
    ensures k < |s| && f(s[k]) == Some(Sort(Collect(f, s).value, le)[i])
  {
    var b := Sort(Collect(f, s).value, le)[i];
    assert b in multiset(Sort(Collect(f, s).value, le));
    k :| 0 <= k < |s| && Collect(f, s).value[k] == b;
  }

  lemma SegmentSizesMatch(n: NamedElf, m: ModuleInput, j: nat)
    requires ModuleInputOf(n) == Some(m) && j < |m.segments|
    ensures m.segments[j].record.fileSize == |m.segments[j].data|
  {
    hide ValidModuleRecords, Sort, ModuleSegment.Valid, Collect;
    var l := SortedComesFrom(SegmentInputOf, n.elf.segments, BySegmentAddress, j);
  }

  lemma PreparedSizesMatch(kernel: Elf, modules: seq<NamedElf>, p: Input)
    requires Prepared(kernel, modules) == Some(p)
    ensures SizesMatch(p)
  {
    hide Sort, KernelSegment.Valid, ModuleInputOf, Collect;
    forall i | 0 <= i < |p.kernel| ensures p.kernel[i].record.fileSize == |p.kernel[i].data| {
      var k := SortedComesFrom(KernelInputOf, kernel.segments, ByKernelAddress, i);
    }
    forall m, j | 0 <= m < |p.modules| && 0 <= j < |p.modules[m].segments|
      ensures p.modules[m].segments[j].record.fileSize == |p.modules[m].segments[j].data|
    {
      var k := SortedComesFrom(ModuleInputOf, modules, ByName, m);
      SegmentSizesMatch(modules[k], p.modules[m], j);
    }
  }

  lemma BadKernel(kernel: Elf, modules: seq<NamedElf>, k: seq<KernelInput>)
    requires Collect(KernelInputOf, kernel.segments) == Some(k)
    requires !ValidKernelRecords(KernelInputs(Input(kernel.entry, Sort(k, ByKernelAddress), [])), kernel.entry)
    ensures Packaged(kernel, modules) == None
  {
    hide ValidKernelRecords, Sort, ImagePack.Total;
    var p := Prepared(kernel, modules);
    assert p.Some? ==> KernelInputs(p.value) == KernelInputs(Input(kernel.entry, Sort(k, ByKernelAddress), []));
  }

  /** `build`. Its input type makes module names UTF-8; others would fail to pack. */
  method Package(kernel: Elf, modules: seq<NamedElf>) returns (r: Option<SystemImage>)
    ensures r == Packaged(kernel, modules)
  {
    hide Sort, SizesMatch, ValidKernelRecords, KernelInputOf, ModuleInputOf, NamesDistinct, IsImage, Expected, ImagePack.Total, GoodModule;
    var k := ConvertKernel(kernel.segments);
    if k.None? { return None; }
    var packedKernel := Sort(k.value, ByKernelAddress);
    if !ValidKernelRecords(KernelInputs(Input(kernel.entry, packedKernel, [])), kernel.entry) {
      BadKernel(kernel, modules, k.value);
      return None;
    }
    var ms := ConvertModules(modules);
    if ms.None? { return None; }
    var packedModules := Sort(ms.value, ByName);
    ByNameIsTotal();
    SortSorts(ms.value, ByName);
    AdjacentDuplicatesSuffice(packedModules);
    var p := Input(kernel.entry, packedKernel, packedModules);
    if HasAdjacentDuplicate(packedModules) { return None; }
    PreparedSizesMatch(kernel, modules, p);
    r := BuildImage(p);
  }

  // ---- Packing is canonical ----

  /** The same program, whose segments may come in another order. */
  ghost predicate SameProgram(a: Elf, b: Elf) {
    a.entry == b.entry && multiset(a.segments) == multiset(b.segments)
  }

  /** The same modules, each of whose segments may come in another order. */
  ghost predicate SamePrograms(a: seq<NamedElf>, b: seq<NamedElf>) {
    |a| == |b| && forall i | 0 <= i < |a| :: a[i].name == b[i].name && SameProgram(a[i].elf, b[i].elf)
  }

  lemma SegmentAddressesDistinct(a: seq<SegmentInput>)
    requires forall i | 0 <= i < |a| :: a[i].record.Valid()
    requires ModuleRangesDisjoint(SegmentInputs(ModuleInput([], 0, a)))
    ensures Distinct(a, BySegmentAddress)
  {
    var records := SegmentInputs(ModuleInput([], 0, a));
    forall i, j | 0 <= i < j < |a| ensures !(BySegmentAddress(a[i], a[j]) && BySegmentAddress(a[j], a[i])) {
      assert !ModuleExtent(records[i]).Overlaps(ModuleExtent(records[j]));
      assert a[i].record.Valid() && a[j].record.Valid();
    }
  }

  lemma KernelAddressesDistinct(p: Input)
    requires Good(p)
    ensures Distinct(p.kernel, ByKernelAddress)
  {
    hide ImagePack.Total, GoodModule, NamesDistinct;
    var records := KernelInputs(p);
    forall i, j | 0 <= i < j < |p.kernel|
      ensures !(ByKernelAddress(p.kernel[i], p.kernel[j]) && ByKernelAddress(p.kernel[j], p.kernel[i]))
    {
      assert !VirtualExtent(records[i]).Overlaps(VirtualExtent(records[j]));
      assert p.kernel[i].record.Valid() && p.kernel[j].record.Valid();
    }
  }

  lemma ModuleNamesDistinct(p: Input)
    requires Good(p)
    ensures Distinct(p.modules, ByName)
  {
    hide ImagePack.Total, GoodModule, NameLe;
    forall i, j | 0 <= i < j < |p.modules|
      ensures !(ByName(p.modules[i], p.modules[j]) && ByName(p.modules[j], p.modules[i]))
    {
      NameLeIsTotal(p.modules[i].name, p.modules[j].name);
    }
  }

  /** Sorting permuted lists of distinct keys gives one result. */
  lemma SortForgetsOrder<T(!new)>(u: seq<T>, v: seq<T>, le: (T, T) -> bool)
    requires Sorting.Total(le) && multiset(u) == multiset(v) && Distinct(Sort(u, le), le)
    ensures Sort(u, le) == Sort(v, le)
  {
    SortSorts(u, le);
    SortSorts(v, le);
    hide Sort, Sorting.Total, Sorted, Distinct;
    SortedIsUnique(Sort(u, le), Sort(v, le), le);
  }

  /** The addresses of a module that converts are distinct. */
  lemma ConvertedAddressesDistinct(n: NamedElf)
    requires ModuleInputOf(n).Some?
    ensures Collect(SegmentInputOf, n.elf.segments).Some?
    ensures Distinct(Sort(Collect(SegmentInputOf, n.elf.segments).value, BySegmentAddress), BySegmentAddress)
  {
    hide Collect, Sort, ModuleSegment.Valid;
    var m := ModuleInputOf(n).value;
    assert SegmentInputs(m) == SegmentInputs(ModuleInput([], 0, m.segments));
    forall i | 0 <= i < |m.segments| ensures m.segments[i].record.Valid() {
      var k := SortedComesFrom(SegmentInputOf, n.elf.segments, BySegmentAddress, i);
    }
    hide ModuleRangesDisjoint, SegmentInputOf, Distinct;
    SegmentAddressesDistinct(m.segments);
  }

  lemma ModuleForgetsOrder(a: NamedElf, b: NamedElf)
    requires a.name == b.name && SameProgram(a.elf, b.elf) && ModuleInputOf(a).Some?
    ensures ModuleInputOf(b) == ModuleInputOf(a)
  {
    hide Collect, Sort, Distinct, SegmentInputOf, ValidModuleRecords, SegmentInputs;
    CollectPermutes(SegmentInputOf, a.elf.segments, b.elf.segments);
    ConvertedAddressesDistinct(a);
    SortForgetsOrder(Collect(SegmentInputOf, a.elf.segments).value, Collect(SegmentInputOf, b.elf.segments).value, BySegmentAddress);
  }

  lemma ModulesForgetOrder(a: seq<NamedElf>, b: seq<NamedElf>)
    requires SamePrograms(a, b) && Collect(ModuleInputOf, a).Some?
    ensures Collect(ModuleInputOf, b) == Collect(ModuleInputOf, a)
  {
    hide ModuleInputOf, Collect, SameProgram;
    forall i | 0 <= i < |a| ensures ModuleInputOf(b[i]) == ModuleInputOf(a[i]) {
      ModuleForgetsOrder(a[i], b[i]);
    }
    assert Collect(ModuleInputOf, b).value == Collect(ModuleInputOf, a).value;
  }

  lemma PreparedForgetsModuleOrder(k: Elf, a: seq<NamedElf>, b: seq<NamedElf>)
    requires multiset(a) == multiset(b) && Prepared(k, a).Some? && Good(Prepared(k, a).value)
    ensures Prepared(k, b) == Prepared(k, a)
  {
    hide Good, KernelInputOf, ModuleInputOf, Collect, Sort, NameLe;
    ModuleNamesDistinct(Prepared(k, a).value);
    CollectPermutes(ModuleInputOf, a, b);
    ByNameIsTotal();
    hide Distinct, ByName;
    SortForgetsOrder(Collect(ModuleInputOf, a).value, Collect(ModuleInputOf, b).value, ByName);
  }

  lemma PreparedForgetsSegmentOrder(k: Elf, a: seq<NamedElf>, l: Elf, b: seq<NamedElf>)
    requires SameProgram(k, l) && SamePrograms(a, b) && Prepared(k, a).Some? && Good(Prepared(k, a).value)
    ensures Prepared(l, b) == Prepared(k, a)
  {
    hide Good, SamePrograms, KernelInputOf, ModuleInputOf, Collect, Sort;
    KernelAddressesDistinct(Prepared(k, a).value);
    CollectPermutes(KernelInputOf, k.segments, l.segments);
    ModulesForgetOrder(a, b);
    hide Distinct;
    SortForgetsOrder(Collect(KernelInputOf, k.segments).value, Collect(KernelInputOf, l.segments).value, ByKernelAddress);
  }

  /** Packing is canonical: the order in which modules are added, and the order of segments
      in any program, change neither the image nor whether there is one. */
  lemma PackingIsCanonical(k: Elf, a: seq<NamedElf>, l: Elf, b: seq<NamedElf>, c: seq<NamedElf>)
    requires multiset(a) == multiset(b)
    requires SameProgram(k, l) && SamePrograms(b, c)
    ensures Packaged(k, a) == Packaged(l, c)
  {
    hide Good, Expected, Prepared;
    if Packaged(k, a).Some? {
      PreparedForgetsModuleOrder(k, a, b);
    } else if Packaged(k, b).Some? {
      PreparedForgetsModuleOrder(k, b, a);
    }
    if Packaged(k, b).Some? {
      PreparedForgetsSegmentOrder(k, b, l, c);
    } else if Packaged(l, c).Some? {
      PreparedForgetsSegmentOrder(l, c, k, b);
    }
  }
}
